# notion-enhancer menu: view transitions and host controller

This project models, in Dafny, the two state machines at the heart of the
notion-enhancer client-side menu:

- **The per-panel view transition machine** (`View` in
  `src/core/menu/islands/View.mjs`). Every menu panel subscribes to the
  store's `view` key. When the key changes, the panel reads the current
  `transition` mode (`fade`, `slide-to-left`, `slide-to-right`, or anything
  else for an immediate switch). It then rewrites its inline style
  (`display`, `opacity`, `transform`, `transition`) and defers the rest of
  the hand-off to `setTimeout` (100 ms for fade, 200 ms for slide) and
  `requestIdleCallback` closures. The outgoing panel raises the store flag
  `transitionInProgress`. The incoming panel's last closure lowers it.
- **The host page's menu controller** (the default export of
  `src/core/client.mjs`). It remembers the last theme it sent to the menu
  frame and sends theme messages only on a change of light/dark or when
  forced. It opens and closes the modal, and obeys `open-menu`/`close-menu`
  messages carrying its namespace. Escape closes the menu unless an
  `<input>` has focus. It keeps the sidebar launcher in the document and
  shows an update badge.

Module layout:

- `Wrappers`: `Option`, standing in for `undefined`.
- `TextCase`: `toLowerCase` and case-insensitive comparison of panel ids.
- `StateStore`: the store as a key→value map, with plain reads and `setState`
  writes, and a `Store` class whose one map all panels share.
- `ViewModel`: the panel's reaction (`React`) and its deferred closures
  (`Run`) as functions on a `Style` record. `Settle` runs a panel's queue of
  deferred work to the end. The lemmas cover each branch, the direction
  signs, the flag discipline and the settled outcome.
- `ViewIsland`: the `View` class. Its `style` and `pending` queue are updated
  in place. `Notify` is the subscription callback and `RunNext` fires the
  oldest timer or idle callback. Both are proved against `React` and `Run`.
  `RunAll` fires every pending closure and is proved against `Settle`, so the
  settled-outcome lemmas carry over to `View` objects.
- `HostModel`: the controller's state as a `Host` record, one function per
  trigger, and lemmas over single calls and over any run of events.
- `Client`: the `MenuController` class with the closure variable
  `_notionTheme` (`lastTheme`), the modal's `open` attribute, the outbox of
  posted messages and the launcher's presence. Each method is proved
  against its `HostModel` function.

Environment inputs are parameters. These are the classes on `<body>`, the
focused element's node name, whether the sidebar exists, and the `data` of
a window message.

Behaviour of the code worth knowing:

- Escape is ignored only when the focused element's node name is `INPUT`.
  A focused `<textarea>` or editable region does not stop it.
- Opening an already open menu sends one more theme message, always. The
  call is forced, so it is not coalesced.
- The "none" mode is the `default` branch. Any `transition` value other than
  the three animated ones behaves the same, an absent value included.
- A freshly rendered panel has no inline `display`, so it counts as visible.
  Its first callback runs at subscription. In an animated mode, that first
  run fades or slides out every inactive panel and raises the flag. Nothing
  lowers it then: the active panel is already visible, so it writes nothing,
  and `transitionInProgress` stays true until the next incoming panel
  finishes.

## Model

| member | source | states |
|---|---|---|
| TextCase.LowerChar | src/core/menu/islands/View.mjs:23 | a capital letter becomes the lower-case letter at the same place in the alphabet, every other character is kept, and the result is never a capital |
| TextCase.LowerCharAgree | src/core/menu/islands/View.mjs:23 | two characters agree after lower-casing iff they are equal or one is the capital of the other |
| TextCase.Lower | src/core/menu/islands/View.mjs:23 | `toLowerCase` keeps the length and lower-cases each character in place |
| TextCase.EqualsIgnoringCasePointwise | src/core/menu/islands/View.mjs:23 | view and id match iff they have the same length and agree letter by letter after lower-casing, both directions |
| TextCase.LowerIdempotent | src/core/menu/islands/View.mjs:23 | lower-casing twice is lower-casing once |
| StateStore.Lookup | src/core/menu/islands/View.mjs:21 | a plain read gives the stored value, and nothing for a key never written |
| StateStore.Write | src/core/menu/islands/View.mjs:30 | `setState` gives each listed key its new value and leaves every other key as it was |
| StateStore.Store.Read | src/core/menu/islands/View.mjs:21 | reading a key of the shared store gives its stored value, and nothing for a key never written |
| StateStore.Store.SetState | src/core/menu/islands/View.mjs:41 | the shared store's map becomes the old one overwritten by the written keys |
| ViewModel.Visible | src/core/menu/islands/View.mjs:22 | a panel counts as shown unless its inline display is "none"; an unset display, as on a freshly rendered panel, counts as shown |
| ViewModel.IsActive | src/core/menu/islands/View.mjs:20-23 | a panel is active iff the view, or "welcome" when there is none, has the panel id's length and agrees with it letter by letter after lower-casing |
| ViewModel.ModeOf | src/core/menu/islands/View.mjs:25-85 | the switch picks fade, slide-to-left or slide-to-right exactly for those three stored strings |
| ViewModel.React | src/core/menu/islands/View.mjs:20-86 | the subscription callback never lowers the flag and raises it iff the mode is animated and a visible panel became inactive; in an animated mode a panel already in the right state is left alone; the immediate switch defers nothing and shows the panel iff active (each branch in full: InstantSwitch, AnimatedSettledPanelUntouched, FadeOutgoing, FadeIncoming, SlideOutgoing, SlideIncoming) |
| ViewModel.Run | src/core/menu/islands/View.mjs:33-75 | a deferred closure never raises the flag, and lowers it iff it is the fade-in idle closure or the final 200 ms slide closure; the 100 ms and 200 ms hides hide, the fade reveal shows, and each closure schedules at most one more |
| ViewModel.SetFlag | src/core/menu/islands/View.mjs:30-74 | after a `setState` of `transitionInProgress` the flag reads as written, or as before when nothing is written, and every other key reads as before |
| ViewModel.ModeOfOtherValues | src/core/menu/islands/View.mjs:25-85 | every `transition` value other than fade, slide-to-left and slide-to-right, absent included, selects the immediate switch |
| ViewModel.InstantSwitch | src/core/menu/islands/View.mjs:81-84 | immediate switch: display "" and opacity "1" iff active, display "none" and opacity "0" iff not, transition cleared, transform kept, nothing deferred, flag untouched |
| ViewModel.InstantIdempotent | src/core/menu/islands/View.mjs:81-84 | applying the immediate switch twice with the same view gives the same result |
| ViewModel.AnimatedSettledPanelUntouched | src/core/menu/islands/View.mjs:29-63 | in fade and slide modes a visible active panel or a hidden inactive panel gets no style change, no deferred work and no store write |
| ViewModel.FadeOutgoing | src/core/menu/islands/View.mjs:29-33 | fade out: flag raised, transition "opacity 100ms", opacity "0" at once while still displayed; display "none" only in the 100 ms closure |
| ViewModel.FadeIncoming | src/core/menu/islands/View.mjs:34-43 | fade in: no synchronous change; the 100 ms closure sets opacity "0" and display "" and queues an idle closure, which sets opacity "1" and lowers the flag |
| ViewModel.SlideSigns | src/core/menu/islands/View.mjs:55-66 | outgoing offset is -100% for slide-to-right and 100% for slide-to-left; the incoming offset has the opposite sign |
| ViewModel.SlideOutgoing | src/core/menu/islands/View.mjs:52-62 | slide out: flag raised, transition, outgoing offset and opacity "0" at once; the 200 ms closure sets display "none" and clears transform |
| ViewModel.SlideIncoming | src/core/menu/islands/View.mjs:63-76 | slide in: displayed at once at opacity "0" with the incoming offset; the idle closure clears the offset and sets opacity "1"; only a further 200 ms closure lowers the flag |
| ViewModel.FadeOutcomeOutgoing | src/core/menu/islands/View.mjs:29-33 | once its deferred work has run, a faded-out panel is hidden at opacity "0" and the flag is raised |
| ViewModel.FadeOutcomeIncoming | src/core/menu/islands/View.mjs:34-43 | once its deferred work has run, a faded-in panel is displayed at opacity "1" and the flag is lowered |
| ViewModel.SlideOutcomeOutgoing | src/core/menu/islands/View.mjs:52-62 | once its deferred work has run, a slid-out panel is hidden with no offset and the flag is raised |
| ViewModel.SlideOutcomeIncoming | src/core/menu/islands/View.mjs:63-76 | once its deferred work has run, a slid-in panel is displayed at opacity "1" with no offset and the flag is lowered |
| ViewModel.OutcomeShowsExactlyActive | src/core/menu/islands/View.mjs:20-86 | in every mode, after one view change and all its deferred work, the panel is shown iff it is active; an animated hand-off leaves the flag raised by the outgoing panel and lowered by the incoming one, and every other case leaves it alone |
| ViewModel.FadeHandOff | src/core/menu/islands/View.mjs:26-45 | a fade between two panels raises the flag at once and keeps it raised through the hide and the reveal; it is lowered only when the incoming panel reaches opacity "1" |
| ViewModel.StaleHideRace | src/core/menu/islands/View.mjs:29-34 | a panel that becomes active again before its pending hide fires is not touched by the second change, and the stale hide then leaves the active panel hidden |
| ViewModel.StaleReveal | src/core/menu/islands/View.mjs:34-43 | a hidden panel that becomes active and then inactive again before its 100 ms reveal fires is not touched by the second change; the stale reveal then shows the inactive panel and its idle closure lowers the flag |
| ViewModel.ActiveIgnoresCase | src/core/menu/islands/View.mjs:20-23 | view "Welcome" activates panel "welcome", and a missing view activates the welcome panel |
| ViewIsland.ViewArgument | src/core/menu/islands/View.mjs:20 | the callback receives the stored string, or nothing when `view` was never written |
| ViewIsland.View.constructor | src/core/menu/islands/View.mjs:12-18 | a rendered panel starts with no inline style and nothing pending |
| ViewIsland.View.Notify | src/core/menu/islands/View.mjs:20-86 | the callback reads the stored transition mode, runs the matching branch, and so updates the style in place, appends the deferred closures to the queue in order and writes the flag into the shared store, exactly as `React` gives them for the stored transition mode |
| ViewIsland.View.NotifyFade | src/core/menu/islands/View.mjs:26-46 | the `fade` branch updates the style in place, queues its 100 ms closure and writes the flag as `React` gives for fade mode |
| ViewIsland.View.NotifySlide | src/core/menu/islands/View.mjs:48-79 | the slide branch updates style and offset in place, queues its closure and writes the flag as `React` gives for the slide mode |
| ViewIsland.View.SlideOut | src/core/menu/islands/View.mjs:53-62 | the outgoing slide writes the flag, then transition, offset and opacity in place, and queues the 200 ms hide |
| ViewIsland.View.SlideIn | src/core/menu/islands/View.mjs:64-76 | the incoming slide sets offset, opacity and display in place and queues the idle slide-in |
| ViewIsland.View.NotifyInstant | src/core/menu/islands/View.mjs:81-84 | the `default` branch sets transition, opacity and display in place as `React` gives for the immediate switch, queueing nothing and writing no flag |
| ViewIsland.View.RunNext | src/core/menu/islands/View.mjs:33-75 | firing the oldest pending closure applies it as `Run` gives, queues what it schedules and writes its flag to the store; with nothing pending nothing changes |
| ViewIsland.View.RunAll | src/core/menu/islands/View.mjs:33-75 | firing every pending closure in order empties the queue and leaves the panel's style and flag where `Settle` says the old queue leads; every other store key, `view` and `transition` included, reads as before |
| ViewIsland.View.NotifyThenRunAll | src/core/menu/islands/View.mjs:20-86 | a view change followed by all its deferred work ends where `Outcome` says; with nothing pending before, the panel is then shown iff it is active; only the flag changes in the store |
| ViewIsland.Mount | src/core/menu/islands/View.mjs:9-20 | rendering and subscribing a panel runs its callback once with the current view and transition |
| HostModel.CurrentTheme | src/core/client.mjs:93-94 | the theme is dark iff the body has class `dark`, light otherwise |
| HostModel.UpdateTheme | src/core/client.mjs:92-105 | exactly one message carrying namespace, hotkey, theme and icon is appended iff the theme differs from the last sent or the call is forced, none otherwise; afterwards the remembered theme is the current one; open and launcher state unchanged |
| HostModel.OpenMenu | src/core/client.mjs:107-111 | opening always appends one message with the current theme and leaves the modal open |
| HostModel.CloseMenu | src/core/client.mjs:112 | closing leaves the modal closed and sends nothing |
| HostModel.OnWindowMessage | src/core/client.mjs:165-169 | a message with a foreign namespace changes nothing; "close-menu" closes, "open-menu" opens, and any other action changes nothing |
| HostModel.OnEscape | src/core/client.mjs:180-183 | Escape closes the menu unless the focused node is `INPUT`, when nothing changes |
| HostModel.OnBodyMutation | src/core/client.mjs:170-172 | a body mutation runs the unforced theme update only while the modal is open |
| HostModel.OnSidebarMutation | src/core/client.mjs:158-161 | the launcher is appended only when absent and the sidebar exists; nothing else changes |
| HostModel.OnChannelMessage | src/core/client.mjs:173-175 | an "open-menu" message from the host channel opens the menu; anything else changes nothing |
| HostModel.UpdateTwiceSendsAtMostOnce | src/core/client.mjs:95-104 | two unforced updates with no theme change in between send at most one message, and the second sends none |
| HostModel.OpenMenuTwice | src/core/client.mjs:107-111 | opening twice leaves the same open state and remembered theme as opening once, and sends the same message once more |
| HostModel.CloseMenuIdempotent | src/core/client.mjs:112 | closing twice is closing once |
| HostModel.SidebarGuardIdempotent | src/core/client.mjs:158-161 | re-running the launcher guard changes nothing, and a launcher already in the document is never appended again |
| HostModel.Step | src/core/client.mjs:122-183 | every listener either sends nothing and keeps the remembered theme, or appends one theme message carrying the theme it now remembers; launcher click and hotkey leave the modal open, the overlay click closed; Escape, the overlay and the sidebar listeners send nothing; a sidebar re-render drops the launcher |
| HostModel.StepConsistent | src/core/client.mjs:95-103 | every trigger keeps the invariant: nothing remembered iff nothing sent, the last message carries the remembered theme, every message has the namespace, hotkey and icon |
| HostModel.RunConsistent | src/core/client.mjs:95-103 | the invariant holds after any run of triggers |
| HostModel.RunFromStartConsistent | src/core/client.mjs:91-105 | from start-up the invariant holds after any run of triggers |
| HostModel.RunExtendsOutbox | src/core/client.mjs:103 | posted messages are never withdrawn or reordered: the outbox before a run is a prefix of the outbox after it |
| HostModel.UpdateEachCoalesces | src/core/client.mjs:95-104 | a run of unforced updates posts exactly one message per change of theme, in order, and nothing for repaints that keep the theme |
| HostModel.SteadyThemeSendsNothing | src/core/client.mjs:95 | repaints that keep the remembered theme send nothing |
| HostModel.Notifications | src/core/client.mjs:152 | the badge count is 1 iff an update is available, and 0 otherwise |
| HostModel.BadgeHidden | src/core/client.mjs:30 | the badge is hidden iff the count is not positive |
| HostModel.BadgeShownIffUpdate | src/core/client.mjs:30 | the badge is hidden iff the count is 0, and the count is 1 exactly when an update is available |
| Client.MenuController.constructor | src/core/client.mjs:148-162 | start-up: nothing sent, nothing remembered, modal closed, launcher present iff the sidebar was there |
| Client.MenuController.UpdateTheme | src/core/client.mjs:92-105 | updates `_notionTheme` and the outbox in place as `HostModel.UpdateTheme` gives |
| Client.MenuController.OpenMenu | src/core/client.mjs:107-111 | sends the forced theme message and sets the open attribute, as `HostModel.OpenMenu` gives; also the launcher click and the hotkey listener |
| Client.MenuController.CloseMenu | src/core/client.mjs:112 | removes the open attribute, as `HostModel.CloseMenu` gives; also the overlay click |
| Client.MenuController.ForceThemeSync | src/core/client.mjs:164 | window focus and frame load run the forced theme update |
| Client.MenuController.OnWindowMessage | src/core/client.mjs:165-169 | the window message handler, as `HostModel.OnWindowMessage` gives |
| Client.MenuController.OnChannelMessage | src/core/client.mjs:173-175 | the host channel handler, as `HostModel.OnChannelMessage` gives |
| Client.MenuController.OnEscape | src/core/client.mjs:180-183 | the Escape listener, as `HostModel.OnEscape` gives |
| Client.MenuController.OnBodyMutation | src/core/client.mjs:170-172 | the body mutation listener, as `HostModel.OnBodyMutation` gives |
| Client.MenuController.OnSidebarMutation | src/core/client.mjs:158-161 | the launcher guard, as `HostModel.OnSidebarMutation` gives; it reports an append iff the launcher was absent and the sidebar present |

## Left out

- Rendering: the HTML templates, the Tailwind class strings, the launcher's
  icon class choice and the badge's accent colour. They are presentation,
  not behaviour.
- The iframe and `postMessage` transport, `contentWindow.focus()` and the
  hand-off of the enhancer API to the electron menu process. Posting is
  modelled as appending to the outbox. A message posted before the frame
  has loaded is still counted as sent.
- Settings reads (`db.get`), theme-override and custom-style loading, and
  stylesheet injection. These are asynchronous I/O over collaborators that
  are not part of this model. The hotkey and icon settings are a fixed
  `Config`.
- `checkForUpdate`, the `load-complete` message and the `initDatabase`
  telemetry gate are foreign calls. Whether an update is available is a
  parameter of the badge rule.
- `addMutationListener`, `addKeyListener` and `preventDefault`. Only the
  listeners' decisions are modelled, as methods and trigger functions.
- The store's internals (`src/core/menu/state.mjs` is not part of this
  model), subscriber notification and its order. Only `setState` writes and
  plain reads are modelled. A view change reaches a panel by calling its
  `Notify`.
- Wall-clock time and CSS interpolation. Timers and idle callbacks are
  entries in one first-in first-out queue per panel, and durations are
  labels on the entries. How closures of different panels, or of
  overlapping transitions, interleave in real time is not modelled.
- The stale-timer races are shown, not fixed. A panel made active again before
  its hide fires ends hidden (`ViewModel.StaleHideRace`). A panel made inactive
  again before its reveal fires ends shown, and its closure lowers the flag
  (`ViewModel.StaleReveal`).
- TextCase.Lower: lower-cases ASCII letters only. The Unicode case mappings
  of `toLowerCase` are not modelled.
- ViewIsland.ViewArgument: a `view` value that is not a string would make
  `toLowerCase` throw. The model passes nothing instead, so the panel falls
  back to "welcome".
