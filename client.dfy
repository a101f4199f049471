/**
 * The host page's menu controller as the source keeps it: closure variables
 * and DOM state updated in place by the triggers it listens for. Each method
 * is one trigger; its new state is the one `HostModel` gives for it.
 */
module Client {
  import opened Wrappers
  import opened HostModel

  class MenuController {
    /** The `openMenuHotkey` and `menuButtonIconStyle` settings. */
    const config: Config
    /** The closure variable `_notionTheme`. */
    var lastTheme: Option<Theme>
    /** Whether the modal carries its `open` attribute. */
    var open: bool
    /** Messages posted to the menu frame, oldest first. */
    var outbox: seq<Msg>
    /** Whether the sidebar launcher is in the document. */
    var launcherInDocument: bool

    function State(): Host
      reads this
    {
      Host(lastTheme, open, outbox, launcherInDocument)
    }

    /** Start-up: the modal is built closed and the launcher is appended to the
        sidebar when the sidebar is there. */
    constructor (config: Config, sidebarPresent: bool)
      ensures this.config == config
      ensures State() == Initial(sidebarPresent)
    {
      this.config := config;
      lastTheme := None;
      open := false;
      outbox := [];
      launcherInDocument := sidebarPresent;
    }

    method UpdateTheme(bodyClasses: set<string>, force: bool)
      modifies this
      ensures State() == HostModel.UpdateTheme(old(State()), config, bodyClasses, force)
    {
      var darkMode := "dark" in bodyClasses;
      var notionTheme := if darkMode then Dark else Light;
      if Some(notionTheme) != lastTheme || force {
        lastTheme := Some(notionTheme);
        var msg := Msg(Namespace, config.hotkey, ThemeName(notionTheme), config.icon);
        outbox := outbox + [msg];
      }
    }

    /** Also the launcher's click handler and the hotkey listener. */
    method OpenMenu(bodyClasses: set<string>)
      modifies this
      ensures State() == HostModel.OpenMenu(old(State()), config, bodyClasses)
    {
      UpdateTheme(bodyClasses, true);
      open := true;
    }

    /** Also the overlay's click handler. */
    method CloseMenu()
      modifies this
      ensures State() == HostModel.CloseMenu(old(State()))
    {
      open := false;
    }

    /** The window `focus` listener and the frame's `load` handler. */
    method ForceThemeSync(bodyClasses: set<string>)
      modifies this
      ensures State() == HostModel.UpdateTheme(old(State()), config, bodyClasses, true)
    {
      UpdateTheme(bodyClasses, true);
    }

    method OnWindowMessage(bodyClasses: set<string>, data: MessageData)
      modifies this
      ensures State() == HostModel.OnWindowMessage(old(State()), config, bodyClasses, data)
    {
      if data.namespace != Some(Namespace) {
        return;
      }
      if data.action == Some("close-menu") {
        CloseMenu();
      }
      if data.action == Some("open-menu") {
        OpenMenu(bodyClasses);
      }
    }

    method OnChannelMessage(bodyClasses: set<string>, message: string)
      modifies this
      ensures State() == HostModel.OnChannelMessage(old(State()), config, bodyClasses, message)
    {
      if message == "open-menu" {
        OpenMenu(bodyClasses);
      }
    }

    method OnEscape(activeNodeName: Option<string>)
      modifies this
      ensures State() == HostModel.OnEscape(old(State()), activeNodeName)
    {
      if activeNodeName == Some("INPUT") {
        return;
      }
      CloseMenu();
    }

    method OnBodyMutation(bodyClasses: set<string>)
      modifies this
      ensures State() == HostModel.OnBodyMutation(old(State()), config, bodyClasses)
    {
      if open {
        UpdateTheme(bodyClasses, false);
      }
    }

    /** The launcher re-append guard; says whether it appended. */
    method OnSidebarMutation(sidebarPresent: bool) returns (appended: bool)
      modifies this
      ensures State() == HostModel.OnSidebarMutation(old(State()), sidebarPresent)
      ensures appended <==> !old(launcherInDocument) && sidebarPresent
    {
      if launcherInDocument {
        return false;
      }
      appended := sidebarPresent;
      if sidebarPresent {
        launcherInDocument := true;
      }
    }
  }
}
