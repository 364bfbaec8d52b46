/**
  The template store: the map from mode name to template text that the
  assistant keeps for the whole session. It starts as a copy of the two
  built-in templates, is overridden by whatever the settings file holds when
  the program starts, and gets both templates rewritten when the user saves
  the settings dialog.
 */
module Settings {

  const InvalidRoute: string := "Invalid Route"
  const NonStandardAltitude: string := "Non-Standard Altitude"

  /* The built-in templates are the two literals of lazyatc.py (lines 10-11),
     written as concatenations of short pieces only so that proofs can look
     inside them:
       RouteLead + "{route}?"
         == "Hi, your planned route seems to be invalid. Can you accept amended routing via {route}?"
       AltitudeLead + "{fl1} or {fl2}."
         == "Hi, your altitude is non-standard. I can offer you either {fl1} or {fl2}."  */
  const RouteLead: string :=
    "Hi, your planned " + "route seems " + "to be invalid. " + "Can you accept " + "amended routing " + "via "
  const AltitudeLead: string :=
    "Hi, your " + "altitude is " + "non-standard. " + "I can offer " + "you either "
  const DefaultRouteText: string := RouteLead + "{route}?"
  const DefaultAltitudeText: string := AltitudeLead + "{fl1} or {fl2}."

  /** The built-in templates. */
  function DefaultTexts(): (m: map<string, string>)
    ensures m.Keys == {InvalidRoute, NonStandardAltitude}
    ensures m[InvalidRoute] == DefaultRouteText
    ensures m[NonStandardAltitude] == DefaultAltitudeText
  {
    map[InvalidRoute := DefaultRouteText, NonStandardAltitude := DefaultAltitudeText]
  }

  /** Both recognised modes have a template. */
  predicate HasTemplates(texts: map<string, string>) {
    InvalidRoute in texts && NonStandardAltitude in texts
  }

  /** Python's `texts.update(data)`: every key of `data` takes its value from
      `data`, every other key keeps the value it had. */
  function Merge(texts: map<string, string>, data: map<string, string>): (r: map<string, string>)
    ensures r.Keys == texts.Keys + data.Keys
    ensures forall k :: k in data ==> r[k] == data[k]
    ensures forall k :: k in texts && k !in data ==> r[k] == texts[k]
  {
    texts + data
  }

  /** The store after the settings dialog is saved with `routeText` and
      `altitudeText` in its two entry fields. */
  function Edited(texts: map<string, string>, routeText: string, altitudeText: string): (r: map<string, string>)
    ensures r.Keys == texts.Keys + {InvalidRoute, NonStandardAltitude}
    ensures r[InvalidRoute] == routeText && r[NonStandardAltitude] == altitudeText
    ensures forall k :: k in texts && k != InvalidRoute && k != NonStandardAltitude ==> r[k] == texts[k]
  {
    texts[InvalidRoute := routeText][NonStandardAltitude := altitudeText]
  }

  /** A merge never loses a template. */
  lemma MergeKeepsTemplates(texts: map<string, string>, data: map<string, string>)
    requires HasTemplates(texts)
    ensures HasTemplates(Merge(texts, data))
  {
  }

  /** A settings file that holds only the route template leaves the altitude
      template at its built-in default. */
  lemma LoadRouteOnly(routeText: string)
    ensures Merge(DefaultTexts(), map[InvalidRoute := routeText])
         == map[InvalidRoute := routeText, NonStandardAltitude := DefaultAltitudeText]
  {
  }

  /** The dialog opens with the current templates in its fields, so saving it
      unedited leaves the store as it was. */
  lemma SaveUnedited(texts: map<string, string>)
    requires HasTemplates(texts)
    ensures Edited(texts, texts[InvalidRoute], texts[NonStandardAltitude]) == texts
  {
  }

  /** Saving writes the whole store to the settings file; loading that file at
      the next start, over the defaults, rebuilds exactly the saved store. */
  lemma SaveThenReload(texts: map<string, string>, routeText: string, altitudeText: string)
    ensures Merge(DefaultTexts(), Edited(texts, routeText, altitudeText))
         == Edited(texts, routeText, altitudeText)
  {
  }

  /** What the attempt to read the settings file produced. */
  datatype SettingsFile =
    | NoFile                              // the file does not exist
    | Unreadable                          // opening or parsing it raised
    | Parsed(data: map<string, string>)   // the JSON object it holds

  /** The session's template store (`custom_texts`). */
  class TemplateStore {
    var texts: map<string, string>

    ghost predicate Valid()
      reads this
    {
      HasTemplates(texts)
    }

    /** A fresh store holds a copy of the built-in templates. */
    constructor ()
      ensures Valid()
      ensures texts == DefaultTexts()
    {
      texts := DefaultTexts();
    }

    /** `load_settings`: merge the parsed file into the store. A missing file
        changes nothing silently; an unreadable one changes nothing and raises
        a warning. */
    method Load(file: SettingsFile) returns (warned: bool)
      requires Valid()
      modifies this
      ensures Valid()
      ensures warned <==> file.Unreadable?
      ensures texts == if file.Parsed? then Merge(old(texts), file.data) else old(texts)
    {
      match file
      case NoFile =>
        warned := false;
      case Unreadable =>
        warned := true;
      case Parsed(data) =>
        texts := Merge(texts, data);
        warned := false;
    }

    /** `save_settings` in the settings dialog: overwrite both templates with
        the entry fields' text. Every other key is kept. */
    method Save(routeText: string, altitudeText: string)
      requires Valid()
      modifies this
      ensures Valid()
      ensures texts == Edited(old(texts), routeText, altitudeText)
      ensures texts[InvalidRoute] == routeText && texts[NonStandardAltitude] == altitudeText
      ensures forall k :: k in old(texts) && k != InvalidRoute && k != NonStandardAltitude ==> texts[k] == old(texts)[k]
    {
      texts := texts[InvalidRoute := routeText];
      texts := texts[NonStandardAltitude := altitudeText];
    }
  }
}
