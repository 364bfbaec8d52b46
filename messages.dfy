/**
  The message generator behind the "Copy Message" button: given the selected
  mode, the text of the two entry fields and the template store, it either
  fills the mode's template or reports why it cannot.
 */
module Messages {
  import opened Text
  import opened Settings

  const RoutePlaceholder: string := "{route}"
  const FirstLevelPlaceholder: string := "{fl1}"
  const SecondLevelPlaceholder: string := "{fl2}"

  /** The message, or one of the three warnings the generator can raise. */
  datatype Outcome =
    | Message(text: string)
    | MissingRoute          // "Please enter the suggested routing."
    | MissingFlightLevels   // "Please enter both flight levels."
    | ModeNotSelected       // "Please select a mode."

  /** `generate_message`. Only the route template is filled in route mode and
      only the altitude template in altitude mode; both are always in a store
      that `TemplateStore.Valid()` holds of. */
  function Generate(mode: string, first: string, second: string, texts: map<string, string>): (r: Outcome)
    requires HasTemplates(texts)
    ensures r == MissingRoute <==> mode == InvalidRoute && AllWhitespace(first)
    ensures r == MissingFlightLevels <==>
              mode == NonStandardAltitude && (AllWhitespace(first) || AllWhitespace(second))
    ensures r == ModeNotSelected <==> mode != InvalidRoute && mode != NonStandardAltitude
  {
    if mode == InvalidRoute then
      var route := Strip(first);
      if route == [] then MissingRoute
      else Message(Replace(texts[InvalidRoute], RoutePlaceholder, route))
    else if mode == NonStandardAltitude then
      var fl1 := Strip(first);
      var fl2 := Strip(second);
      if fl1 == [] || fl2 == [] then MissingFlightLevels
      else Message(Replace(Replace(texts[NonStandardAltitude], FirstLevelPlaceholder, fl1),
                           SecondLevelPlaceholder, fl2))
    else
      ModeNotSelected
  }

  /** A route that is not blank is stripped and put into every gap the route
      template's `{route}` placeholders leave, and nowhere else. */
  lemma RouteMessage(first: string, second: string, texts: map<string, string>)
    requires HasTemplates(texts) && !AllWhitespace(first)
    ensures Generate(InvalidRoute, first, second, texts)
         == Message(Join(Split(texts[InvalidRoute], RoutePlaceholder), Strip(first)))
  {
    ReplaceIsSplitJoin(texts[InvalidRoute], RoutePlaceholder, Strip(first));
  }

  /** A route template without `{route}` is sent unchanged. */
  lemma RouteWithoutPlaceholder(first: string, second: string, texts: map<string, string>)
    requires HasTemplates(texts) && !AllWhitespace(first)
    requires !Occurs(texts[InvalidRoute], RoutePlaceholder)
    ensures Generate(InvalidRoute, first, second, texts) == Message(texts[InvalidRoute])
  {
    ReplaceAbsent(texts[InvalidRoute], RoutePlaceholder, Strip(first));
  }

  /** A route template with `{route}` in it never comes out unchanged unless
      the stripped route is `{route}` itself. */
  lemma RouteWithPlaceholder(first: string, second: string, texts: map<string, string>)
    requires HasTemplates(texts) && !AllWhitespace(first)
    requires Occurs(texts[InvalidRoute], RoutePlaceholder)
    requires Strip(first) != RoutePlaceholder
    ensures Generate(InvalidRoute, first, second, texts) != Message(texts[InvalidRoute])
  {
    ReplacePresent(texts[InvalidRoute], RoutePlaceholder, Strip(first));
  }

  /** Non-blank flight levels: the altitude template is cut at every `{fl1}`
      and glued with the first stripped level; that text is then cut at every
      `{fl2}` and glued with the second. */
  lemma AltitudeMessage(first: string, second: string, texts: map<string, string>)
    requires HasTemplates(texts) && !AllWhitespace(first) && !AllWhitespace(second)
    ensures Generate(NonStandardAltitude, first, second, texts)
         == Message(Join(Split(Join(Split(texts[NonStandardAltitude], FirstLevelPlaceholder), Strip(first)),
                               SecondLevelPlaceholder), Strip(second)))
  {
    var once := Replace(texts[NonStandardAltitude], FirstLevelPlaceholder, Strip(first));
    ReplaceIsSplitJoin(texts[NonStandardAltitude], FirstLevelPlaceholder, Strip(first));
    ReplaceIsSplitJoin(once, SecondLevelPlaceholder, Strip(second));
  }

  /** In route mode the second entry field (hidden in that mode) has no
      effect, and neither has the altitude template. */
  lemma RouteIgnoresAltitudeInputs(first: string, second: string, second': string,
                                   texts: map<string, string>, texts': map<string, string>)
    requires HasTemplates(texts) && HasTemplates(texts')
    requires texts[InvalidRoute] == texts'[InvalidRoute]
    ensures Generate(InvalidRoute, first, second, texts) == Generate(InvalidRoute, first, second', texts')
  {
  }

  /** The route branch, for a route that is not blank. */
  lemma RouteFilled(first: string, second: string, texts: map<string, string>)
    requires HasTemplates(texts) && !AllWhitespace(first)
    ensures Generate(InvalidRoute, first, second, texts)
         == Message(Replace(texts[InvalidRoute], RoutePlaceholder, Strip(first)))
  {
  }

  /** The altitude branch, for flight levels that are not blank. */
  lemma AltitudeFilled(first: string, second: string, texts: map<string, string>)
    requires HasTemplates(texts) && !AllWhitespace(first) && !AllWhitespace(second)
    ensures Generate(NonStandardAltitude, first, second, texts)
         == Message(Replace(Replace(texts[NonStandardAltitude], FirstLevelPlaceholder, Strip(first)),
                            SecondLevelPlaceholder, Strip(second)))
  {
  }

  /** The built-in route template, filled. */
  lemma DefaultRouteMessage(first: string, second: string)
    requires !AllWhitespace(first)
    ensures Generate(InvalidRoute, first, second, DefaultTexts())
         == Message(RouteLead + Strip(first) + "?")
  {
    RouteFilled(first, second, DefaultTexts());
    FillRoute(Strip(first));
  }

  lemma RouteLeadFree()
    ensures '{' !in RouteLead
  {
  }

  lemma FillRoute(route: string)
    ensures Replace(DefaultRouteText, RoutePlaceholder, route) == RouteLead + route + "?"
  {
    RouteLeadFree();
    assert DefaultRouteText == RouteLead + (RoutePlaceholder + "?");
    ReplaceFreePrefix(RouteLead, RoutePlaceholder + "?", RoutePlaceholder, route);
    assert (RoutePlaceholder + "?")[|RoutePlaceholder|..] == "?";
    assert Replace("?", RoutePlaceholder, route) == "?";
  }

  /** The built-in altitude template, filled. `{fl1}` is replaced first, so
      any `{fl2}` inside the first flight level is itself replaced by the
      second one; the second flight level is inserted as it is. */
  lemma DefaultAltitudeMessage(first: string, second: string)
    requires !AllWhitespace(first) && !AllWhitespace(second)
    ensures Generate(NonStandardAltitude, first, second, DefaultTexts())
         == Message(AltitudeLead + Replace(Strip(first), SecondLevelPlaceholder, Strip(second))
                    + " or " + Strip(second) + ".")
  {
    AltitudeFilled(first, second, DefaultTexts());
    FillAltitude(Strip(first), Strip(second));
  }

  const AltitudeTail: string := " or " + SecondLevelPlaceholder + "."

  lemma FillAltitude(fl1: string, fl2: string)
    ensures Replace(Replace(DefaultAltitudeText, FirstLevelPlaceholder, fl1), SecondLevelPlaceholder, fl2)
         == AltitudeLead + Replace(fl1, SecondLevelPlaceholder, fl2) + " or " + fl2 + "."
  {
    FillFirstLevel(fl1);
    AltitudeLeadFree();
    FillSecondLevel(AltitudeLead, fl1, fl2);
  }

  /** The second substitution, after any lead text free of `{`. */
  lemma FillSecondLevel(lead: string, fl1: string, fl2: string)
    requires '{' !in lead
    ensures Replace(lead + (fl1 + AltitudeTail), SecondLevelPlaceholder, fl2)
         == lead + Replace(fl1, SecondLevelPlaceholder, fl2) + " or " + fl2 + "."
  {
    var x := Replace(fl1, SecondLevelPlaceholder, fl2);
    ReplaceFreePrefix(lead, fl1 + AltitudeTail, SecondLevelPlaceholder, fl2);
    // " or " cannot continue an occurrence of `{fl2}` begun inside fl1.
    ReplaceConcat(fl1, AltitudeTail, SecondLevelPlaceholder, fl2);
    FillSecondLevelTail(fl2);
    assert lead + (x + (" or " + fl2 + ".")) == lead + x + " or " + fl2 + ".";
  }

  lemma AltitudeLeadFree()
    ensures '{' !in AltitudeLead
  {
  }

  /** The first substitution changes only the one `{fl1}`. */
  lemma FillFirstLevel(fl1: string)
    ensures Replace(DefaultAltitudeText, FirstLevelPlaceholder, fl1) == AltitudeLead + (fl1 + AltitudeTail)
  {
    AltitudeLeadFree();
    assert DefaultAltitudeText == AltitudeLead + (FirstLevelPlaceholder + AltitudeTail);
    ReplaceFreePrefix(AltitudeLead, FirstLevelPlaceholder + AltitudeTail, FirstLevelPlaceholder, fl1);
    assert (FirstLevelPlaceholder + AltitudeTail)[|FirstLevelPlaceholder|..] == AltitudeTail;
    FillFirstLevelTail(fl1);
  }

  lemma FillFirstLevelTail(fl1: string)
    ensures Replace(AltitudeTail, FirstLevelPlaceholder, fl1) == AltitudeTail
  {
    assert AltitudeTail == " or " + (SecondLevelPlaceholder + ".");
    ReplaceFreePrefix(" or ", SecondLevelPlaceholder + ".", FirstLevelPlaceholder, fl1);
    assert (SecondLevelPlaceholder + ".")[3] != FirstLevelPlaceholder[3];
    assert (SecondLevelPlaceholder + ".")[1..] == "fl2}" + ".";
    ReplaceFreePrefix("fl2}", ".", FirstLevelPlaceholder, fl1);
    assert Replace(".", FirstLevelPlaceholder, fl1) == ".";
  }

  lemma FillSecondLevelTail(fl2: string)
    ensures Replace(AltitudeTail, SecondLevelPlaceholder, fl2) == " or " + fl2 + "."
  {
    assert AltitudeTail == " or " + (SecondLevelPlaceholder + ".");
    ReplaceFreePrefix(" or ", SecondLevelPlaceholder + ".", SecondLevelPlaceholder, fl2);
    assert (SecondLevelPlaceholder + ".")[|SecondLevelPlaceholder|..] == ".";
    assert Replace(".", SecondLevelPlaceholder, fl2) == ".";
  }

  /** The order of the two substitutions shows: a first flight level that
      reads `{fl2}` is turned into the second flight level. */
  lemma AltitudeSubstitutionOrder(second: string)
    requires !AllWhitespace(second)
    ensures Generate(NonStandardAltitude, SecondLevelPlaceholder, second, DefaultTexts())
         == Message(AltitudeLead + Strip(second) + " or " + Strip(second) + ".")
  {
    StripKeeps(SecondLevelPlaceholder);
    DefaultAltitudeMessage(SecondLevelPlaceholder, second);
    ReplaceTarget(SecondLevelPlaceholder, Strip(second));
  }
}
