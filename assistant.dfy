/**
  The session state that "Copy Message" touches besides the template store:
  the text shown in the output area and the system clipboard.
 */
module Assistant {
  import opened Settings
  import opened Messages

  class Screen {
    var output: string
    var clipboard: string

    constructor (clipboard: string)
      ensures output == [] && this.clipboard == clipboard
    {
      output := [];
      this.clipboard := clipboard;
    }

    /** `generate_message`: build the message from the current store and, only
        when that succeeds, show it and put it on the clipboard (each replacing
        what was there). A warning leaves both as they were. */
    method CopyMessage(store: TemplateStore, mode: string, first: string, second: string)
      returns (r: Outcome)
      requires store.Valid()
      modifies this
      ensures r == Generate(mode, first, second, store.texts)
      ensures r.Message? ==> output == r.text && clipboard == r.text
      ensures !r.Message? ==> output == old(output) && clipboard == old(clipboard)
    {
      r := Generate(mode, first, second, store.texts);
      if !r.Message? {
        return;
      }
      output := r.text;
      clipboard := r.text;
    }
  }

  /** One session: the built-in templates are overridden by a settings file
      holding only a route template, and a route is then copied. The message
      uses the file's template, the altitude template is still the built-in
      one, and the message is both shown and on the clipboard. */
  method LoadThenCopy(routeText: string, route: string)
    returns (r: Outcome, store: TemplateStore, screen: Screen)
    requires !Text.AllWhitespace(route)
    ensures r == Message(Text.Replace(routeText, RoutePlaceholder, Text.Strip(route)))
    ensures store.texts == map[InvalidRoute := routeText, NonStandardAltitude := DefaultAltitudeText]
    ensures screen.output == r.text && screen.clipboard == r.text
  {
    store := new TemplateStore();
    var warned := store.Load(Parsed(map[InvalidRoute := routeText]));
    LoadRouteOnly(routeText);
    screen := new Screen([]);
    r := screen.CopyMessage(store, InvalidRoute, route, []);
  }
}
