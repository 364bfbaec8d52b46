# lazyATC message templating, in Dafny

lazyATC ("DEL Assistant") is a small desktop helper for air-traffic
controllers. The controller picks a mode, "Invalid Route" or "Non-Standard
Altitude". They then type a route or two flight levels and press "Copy
Message". The assistant fills that mode's template and shows the message.
It also puts the message on the clipboard. The two templates live in a
session-wide store. The store starts from two built-in texts. It is
overridden at start-up by a JSON settings file, and both templates are
rewritten when the user saves the settings dialog.

This project models the logic behind that in `lazyatc.py`:

- `text.dfy`, module `Text`: the Python string methods the generator uses,
  as functions over `string`.
  - `str.strip()` (`TrimStart`, `TrimEnd`, `Strip`) over exactly the 29
    characters Python's `str.isspace()` accepts.
  - `str.replace` (`Replace`): a left-to-right scan that replaces every
    non-overlapping occurrence.
  - `str.split` and `str.join` (`Split`, `Join`): an independent
    description of `Replace`. Replacing is splitting at every occurrence
    the scan finds and joining the pieces with the replacement.
- `settings.dfy`, module `Settings`: the template store `custom_texts`.
  - A class `TemplateStore` with a `map<string, string>` field.
  - Its constructor, `Load` (the merge done by `load_settings`) and `Save`
    (the two key assignments of the dialog's `save_settings`).
  - Pure functions `Merge` and `Edited` that specify those two methods.
- `messages.dfy`, module `Messages`: `generate_message` once its widget
  reads are parameters.
  - `Generate(mode, first, second, texts)` returns an `Outcome`: the
    message, or one of the three warnings (missing route, missing flight
    levels, mode not selected).
- `assistant.dfy`, module `Assistant`: the output area and the clipboard,
  as the fields of a class `Screen`.
  - `CopyMessage` changes them only when a message was generated.

Two facts about `lazyatc.py` that the model keeps:

- The route substitution at line 43 is `str.replace`, which replaces every
  occurrence of `{route}`, not just the first.
- Nothing keeps a template non-empty: a settings file merged in at line 21
  or the dialog's save at lines 96-97 may store `""`.

## Model

| member | source | states |
|---|---|---|
| `Text.IsWhitespace` | lazyatc.py:39 | whitespace for `strip()` is exactly the 29 code points for which Python's `str.isspace()` holds (U+0009-U+000D, U+001C-U+0020, U+0085, U+00A0, U+1680, U+2000-U+200A, U+2028, U+2029, U+202F, U+205F, U+3000) |
| `Text.TrimStart` | lazyatc.py:39 | the result is the longest suffix of the input that does not start with whitespace; everything dropped is whitespace |
| `Text.TrimEnd` | lazyatc.py:39 | the result is the longest prefix of the input that does not end with whitespace; everything dropped is whitespace |
| `Text.Strip` | lazyatc.py:39 | the stripped text is a slice of the input with only whitespace around it; it neither starts nor ends with whitespace; it is empty exactly when the input is all whitespace (the "not route" test) |
| `Text.StripKeeps` | lazyatc.py:45-46 | an entry that neither starts nor ends with whitespace is used as typed |
| `Text.StripIdempotent` | lazyatc.py:39 | stripping an already stripped entry changes nothing |
| `Text.Replace` | lazyatc.py:43 | `str.replace` with a non-empty placeholder: scanning left to right, each occurrence is swapped for the value and the scan resumes after it; what it computes is stated by `ReplaceIsSplitJoin` and the `Replace*` lemmas below |
| `Text.Split` | lazyatc.py:43 | reference description of the cuts `replace` makes (Python's `str.split(sep)`, not called by the source): always at least one piece |
| `Text.Join` | lazyatc.py:43 | reference description of the gluing (Python's `sep.join(parts)`): the first piece is a prefix of the result |
| `Text.SplitAtLeftmost` | lazyatc.py:43 | the split cuts at the leftmost occurrence of the placeholder and continues after it; with `OccursIffSplits` this determines the split, and so `replace`, by leftmost non-overlapping cuts for every separator, self-overlapping ones included |
| `Text.SplitJoin` | lazyatc.py:43 | joining the pieces of a split with the separator gives back the string |
| `Text.ReplaceIsSplitJoin` | lazyatc.py:43 | `str.replace` equals splitting at every occurrence and joining the pieces with the replacement |
| `Text.SplitPiecesAreFree` | lazyatc.py:43 | no piece between two replaced occurrences still contains the placeholder, so every occurrence the left-to-right scan meets is replaced |
| `Text.OccursIffSplits` | lazyatc.py:43 | the placeholder occurs in the template if and only if the split has more than one piece, i.e. at least one replacement happens |
| `Text.ReplaceAbsent` | lazyatc.py:43 | a template without the placeholder comes out of `replace` unchanged |
| `Text.ReplacePresent` | lazyatc.py:43 | a template with the placeholder is changed by any value other than the placeholder itself |
| `Text.ReplaceLength` | lazyatc.py:43 | the result's length is the template's plus, for each occurrence replaced, the value's length minus the placeholder's |
| `Text.ReplaceFreePrefix` | lazyatc.py:43 | text before the first character that could start the placeholder passes through `replace` untouched |
| `Text.ReplaceConcat` | lazyatc.py:50 | two halves are replaced independently when no occurrence can straddle the boundary between them |
| `Text.ReplaceTarget` | lazyatc.py:50 | the placeholder alone becomes the value |
| `Text.ReplaceBySelf` | lazyatc.py:43 | replacing the placeholder by itself changes nothing |
| `Settings.DefaultTexts` | lazyatc.py:9-12 | exactly the two recognised modes, with the two built-in templates |
| `Settings.Merge` | lazyatc.py:21 | `dict.update`: every key of the loaded map takes the loaded value; every other key keeps its value; the keys are the union |
| `Settings.Edited` | lazyatc.py:95-97 | both recognised keys hold the dialog's texts; every other key keeps its value |
| `Settings.MergeKeepsTemplates` | lazyatc.py:21 | a load never removes a template |
| `Settings.LoadRouteOnly` | lazyatc.py:14-21 | a settings file holding only the route template leaves the altitude template at its default |
| `Settings.SaveUnedited` | lazyatc.py:86-97 | the dialog opens with the current templates, so saving it unedited leaves the store as it was |
| `Settings.SaveThenReload` | lazyatc.py:16-28 | the saved store, loaded over the defaults at the next start, comes back exactly |
| `Settings.TemplateStore.constructor` | lazyatc.py:14 | the store starts as a copy of the defaults and holds both templates |
| `Settings.TemplateStore.Load` | lazyatc.py:16-23 | a parsed file is merged in; a missing file changes nothing; an unreadable file changes nothing and warns; both templates stay present |
| `Settings.TemplateStore.Save` | lazyatc.py:95-97 | sets exactly the two recognised keys to the edited texts and leaves every other key untouched |
| `Messages.Generate` | lazyatc.py:36-53 | "missing route" exactly in route mode with an all-whitespace entry; "missing flight levels" exactly in altitude mode with either entry all whitespace; "mode not selected" exactly for any other mode, the empty one included; a message otherwise |
| `Messages.RouteMessage` | lazyatc.py:38-43 | a non-blank route is stripped and placed in every gap the template's `{route}` placeholders leave |
| `Messages.RouteWithoutPlaceholder` | lazyatc.py:43 | a route template without `{route}` is sent unchanged |
| `Messages.RouteWithPlaceholder` | lazyatc.py:43 | a route template with `{route}` is changed by every non-blank route except the text `{route}` itself |
| `Messages.AltitudeMessage` | lazyatc.py:45-50 | non-blank flight levels are stripped; the template is cut at every `{fl1}` and glued with the first, and that text is cut at every `{fl2}` and glued with the second |
| `Messages.RouteIgnoresAltitudeInputs` | lazyatc.py:38-43 | in route mode the second entry and the altitude template have no effect |
| `Messages.DefaultRouteMessage` | lazyatc.py:10 | the built-in route template gives its fixed text with the stripped route in place of `{route}` |
| `Messages.DefaultAltitudeMessage` | lazyatc.py:50 | the built-in altitude template: `{fl1}` is replaced first, so a `{fl2}` inside the first level is rewritten by the second level, which itself is inserted verbatim |
| `Messages.AltitudeSubstitutionOrder` | lazyatc.py:50 | with the built-in template, a first flight level reading `{fl2}` comes out as the second flight level, so the message offers the second level twice |
| `Assistant.Screen.constructor` | lazyatc.py:138 | the output area starts empty; the clipboard holds whatever it held before |
| `Assistant.Screen.CopyMessage` | lazyatc.py:36-58 | the outcome is `Generate` on the current store; on success the output area and clipboard both hold the message; on every warning neither changes |
| `Assistant.LoadThenCopy` | lazyatc.py:143 | a start-up load of a file holding only a route template, followed by a copy in route mode: the store holds the file's route template and the built-in altitude template, and the message (the file's template filled with the stripped route) is both shown and on the clipboard |

## Left out

- The tkinter user interface is not modelled: the widget tree, layout,
  menus, `set_mode` and `update_inputs`, the settings window and the main
  loop. It is presentation over a toolkit; the mode and the entry texts
  become parameters.
- Message boxes are not modelled as dialogs. Each warning is a variant of
  `Outcome`, and a load failure is the `warned` result of
  `TemplateStore.Load`.
- The output widget and the clipboard are modelled as two string fields
  that are replaced on success. The Tk `Text` widget and the system
  clipboard themselves are not.
- File I/O and JSON (de)serialisation are not modelled: `os.path.exists`,
  `open`, `json.load`, `json.dump` and `save_settings_to_file`. Loading
  starts from the already-parsed file as a `SettingsFile` value. Saving
  writes the whole store, and `SaveThenReload` takes the file to hold
  exactly that map. A failed write cannot be observed in the model.
- Settings files whose JSON is not an object of strings are not modelled.
  A non-string template value would make `replace` raise later. A list
  of pairs could be partly merged before `update` fails.
- `Text.Replace` is only defined for a non-empty target. Python's
  `replace("", x)` inserts `x` at both ends and between every two
  characters, but the generator only ever replaces the three constant
  placeholders.
- Messages.Generate: requires both templates to be in the map, even on the
  warning paths where the source never looks them up. Every
  `TemplateStore` satisfies this (`Valid()`), and the source's store always
  holds both keys.
- The route fetcher and the numeric flight-level variant (FL minus/plus
  10, zero-padded) are not modelled. `VatSys plugin/LazyATCWindow.cs` is
  not part of this model; `lazyatc.py` has neither.
