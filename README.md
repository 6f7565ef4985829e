# XFStart launcher menu — a Dafny model of its registry, categoriser and filter

XFStart is an application-launcher menu for the Xfce panel. When the menu is
built it asks the host for every registered application, keeps the ones
that are to be shown, and fills two lists:

- the category list shows the distinct categories present, in order of
  first appearance;
- the application list shows the applications that pass the selected
  category and the search text.

Selecting a category row or editing the search text recomputes the
application list. Activating a row launches that application.

This project models the logic of `src/menu.c` in Dafny and proves its
properties:

- `text.dfy` (module `Text`) holds the C string routines the menu relies on:
  ASCII lower-casing (`g_ascii_strdown`) and substring search (`strstr`,
  `g_strrstr`).
- `seqs.dfy` (module `Seqs`) holds the list shapes the loops build:
  - an order-preserving filter, `Keep`;
  - a prepend-built list, `Reverse`;
  - a first-occurrence de-duplication, `Dedup`.

  Next to each is its characterisation: an increasing index embedding,
  and first-occurrence positions.
- `menu.dfy` (module `Menu`) holds the parts of the menu:
  - the categoriser `get_category`, with the priority table it follows;
  - the text matcher `filter_app`;
  - the filter loop `populate_apps`;
  - category discovery `populate_categories`;
  - the loader `load_apps`.

  It also holds the menu object `StartMenu`. Its two event handlers keep
  the invariant that the application rows are always the filter of the
  loaded entries by the selected category row and the current search
  text. The object also has the launch guard.
- `scenarios.dfy` (module `MenuScenarios`) holds concrete cases over a
  three-entry registry (Firefox, LibreOffice Writer, GNOME Terminal):
  - "FIRE" matches "Firefox";
  - "Office;System;" is Office;
  - "Audio;Video;" is Multimedia;
  - the four filtered views of that registry.
- `wrappers.dfy` holds `Option`, which stands for a C pointer that may be
  NULL.

Modelling choices:

- A host application entry (a `GAppInfo` that is also a `GDesktopAppInfo`)
  becomes the record `AppInfo` with four fields:
  - the display name and the `Categories` string, each possibly NULL;
  - `should_show`;
  - whether the non-NULL test on the result of the `G_DESKTOP_APP_INFO` cast passes.
- A C string is the sequence of its characters before the terminating NUL.
  The menu's strings are UTF-8 bytes; they are modelled as characters.
  ASCII folding touches only ASCII. UTF-8 is self-synchronising, so a byte
  substring of valid UTF-8 is a character substring and the reverse.
- The loops of `populate_apps`, `populate_categories` and `load_apps` are
  methods with `for` loops. Their invariants tie the partial result to a
  specification function of the prefix scanned so far. The seen-set of
  `populate_categories` is a Dafny `set`.
- `load_apps` prepends and then reverses. The model does the same and
  proves that the reversal restores the host order.
- The list widgets are modelled by what they show, as sequences:
  - the application list by the entries behind its rows;
  - the category list by the labels of its rows.

  A row is identified by its position. The selected category row is an
  `Option<nat>`.
- The result of `g_app_info_launch` is the parameter `launchSucceeds`.
  `LaunchSelected` has no `modifies` clause, so the menu's state (entries,
  category rows, selection, search text, application rows) is unchanged
  whether the launch succeeds or fails.

Behaviour of the code that the model keeps:

- The text match folds ASCII letters only, not by locale.
- An entry without a display name never matches a non-empty query.
- The initial view is computed with a NULL query. Later views use the
  entry's text, which is never NULL. The model proves the two agree when
  the text is empty.
- The loader keeps the non-NULL test on the result of the `G_DESKTOP_APP_INFO` cast (src/menu.c:170-172) as the flag `isDesktop`. That checked cast returns its argument even on a type mismatch, with a warning. It is NULL only when the entry is NULL, and `g_app_info_should_show` has handled that case first. So the flag is true for every entry the host can return, and an entry with `isDesktop == false` stands for nothing the C code actually rejects. `ListedWhenCastsSucceed` shows that the loader then keeps exactly the entries that are to be shown. A non-desktop `GAppInfo` that is to be shown would be kept and would fall to Other, because it has no `Categories` string.
- The category compared in `populate_apps` is the text of the selected
  row's label, compared as a string. `ViewUnknownCategory` shows that a
  text which is none of the nine labels selects nothing.

## Model

| member | source | states |
|---|---|---|
| `Menu.Categorise` | src/menu.c:33-47 | an absent `Categories` string and an empty one both give Other |
| `Menu.GetCategory` | src/menu.c:33-47 | the label returned is always one of Internet, Office, System, Utilities, Development, Graphics, Multimedia, Games, Other; an absent string gives "Other" |
| `Menu.RuleTests` | src/menu.c:37-44 | the priority table's eight rules test exactly the substrings Network, Office, System, Utility, Development, Graphics, Audio-or-Video, Game |
| `Menu.FirstRuleWins` | src/menu.c:37-44 | a present tag string gets the k-th rule's category if and only if that rule's tag occurs and no higher-priority rule's tag does |
| `Menu.OtherWhenNoRuleFires` | src/menu.c:37-46 | a present tag string is Other if and only if none of the eight rules' tags occurs in it |
| `Menu.LabelInjective` | src/menu.c:64 | two categories have equal labels exactly when they are the same category, so the string compare of labels decides category equality |
| `Text.AsciiLower` | src/menu.c:22-23 | the folded character is never an ASCII capital; it differs from the input only for 'A'..'Z', which move to the matching lower-case letter |
| `Text.AsciiDown` | src/menu.c:22-23 | the lowered string has the input's length and is the input folded character by character |
| `Text.FoldedContainsIff` | src/menu.c:22-25 | lowering both strings and then searching succeeds exactly when the query occurs in the name with ASCII letters compared regardless of case |
| `Menu.FilterAppIff` | src/menu.c:15-31 | filter_app is true exactly when the query is NULL or empty, or the name is present and holds the query case-insensitively (for ASCII letters); a NULL name never matches a non-empty query |
| `Menu.PopulateApps` | src/menu.c:58-91 | the rows appended by the loop are the filtered view of the entries for the category and the query |
| `Menu.ViewSelects` | src/menu.c:61-88 | the view is exactly the entries at the positions that pass the category test (none, or equal label) AND filter_app, in list order, each position once |
| `Menu.ViewUnfiltered` | src/menu.c:249 | with no category and a NULL or empty query, the view is every loaded entry in order |
| `Menu.ViewUnknownCategory` | src/menu.c:64-65 | a category text that is not one of the nine labels selects no entry |
| `Menu.ViewWithinCategory` | src/menu.c:64-65 | every entry listed under a category's label belongs to that category |
| `Menu.ViewAppend` | src/menu.c:61-88 | the view of two lists joined is the two views joined, so the scan is order-preserving and entry-local |
| `Menu.PopulateCategories` | src/menu.c:108-127 | the category rows the seen-set loop appends are the de-duplicated category labels of the entries |
| `Menu.CategoriesSpec` | src/menu.c:109-123 | the category rows hold no label twice; a label is a row exactly when some entry has it; the rows are ordered by each label's first entry, and no earlier entry has that label |
| `Menu.LoadApps` | src/menu.c:160-179 | the prepend-then-reverse loop yields exactly the listed host entries in host order |
| `Seqs.ReverseReverse` | src/menu.c:174-178 | reversing the prepend-built list restores the order in which entries were met |
| `Menu.ListedSelects` | src/menu.c:164-175 | the loaded list is exactly the host entries with should_show and a non-NULL cast result, in enumeration order, each once |
| `Menu.ListedWhenCastsSucceed` | src/menu.c:164-175 | when every cast result is non-NULL, as it is for every host entry, the loaded list is exactly the entries with should_show, in enumeration order, each once |
| `Menu.RowLabel` | src/menu.c:132-136 | no row gives no category; a row gives the label of that category row, which is one of the category rows' labels |
| `Menu.StartMenu.constructor` | src/menu.c:246-249 | the menu loads the listed entries, discovers their categories, starts with no selection and empty search text, and lists every loaded entry |
| `Menu.StartMenu.OnCategorySelected` | src/menu.c:129-140 | the new row (or none) becomes the selection; the rows are recomputed from it and the unchanged search text; re-selecting the same row leaves the rows as they were |
| `Menu.StartMenu.OnSearchChanged` | src/menu.c:144-156 | the new text becomes the query; the rows are recomputed from it and the unchanged selected category; the same text again leaves the rows as they were |
| `Menu.StartMenu.LaunchSelected` | src/menu.c:93-104 | no row, or a row without an entry, does nothing; otherwise the entry of that row is launched or its failure reported, and the menu's state is untouched either way |
| `MenuScenarios.OfficeBeforeSystem` | src/menu.c:37-39 | "Office;System;" is Office: priority, not tag position, decides |
| `MenuScenarios.MultimediaAndEmpty` | src/menu.c:43-46 | "Audio;Video;" is Multimedia and "" is Other |
| `MenuScenarios.RegistryCategories` | src/menu.c:37-39 | "Network;" is Internet, "Office;" is Office, and "System;TerminalEmulator;" is System |
| `MenuScenarios.FireMatchesFirefox` | src/menu.c:22-25 | "FIRE" and "fire" both match "Firefox" |
| `MenuScenarios.FireMatchesOnlyFirefox` | src/menu.c:22-25 | "fire" matches neither "LibreOffice Writer" nor "GNOME Terminal" |
| `MenuScenarios.OfficeMatches` | src/menu.c:22-25 | "office" matches "LibreOffice Writer" and neither of the other two names |
| `MenuScenarios.ScenarioAllApps` | src/menu.c:249 | no category and an empty query list the three entries in order |
| `MenuScenarios.ScenarioInternet` | src/menu.c:64-68 | the Internet category with an empty query lists Firefox only |
| `MenuScenarios.ScenarioOfficeQuery` | src/menu.c:64-68 | no category with the query "office" lists LibreOffice Writer only |
| `MenuScenarios.ScenarioCategoryExcludes` | src/menu.c:64-68 | the Office category with the query "fire" lists nothing: the category test excludes Firefox, although its name matches |

## Left out

- Widget construction and teardown are not modelled. That covers `clear_list`, the row, box, label and image creation, `gtk_widget_show_all`, and the window layout of `xfstart_menu_new`. They are presentation only; the model keeps what the lists show, as sequences.
- Icon-name resolution (src/menu.c:71-73) is not modelled. It is a call into GIO that no decision depends on.
- `build_power_box` (src/menu.c:183-208) is not modelled. It only wires buttons to external commands.
- The launch call `g_app_info_launch` and its warning are not modelled. The call is replaced by the boolean `launchSucceeds`, and the warning by the `LaunchFailed` outcome.
- Reference counting and freeing (`g_object_ref`, `g_free`, `g_list_free`, `g_hash_table_destroy`) are not modelled. The hash table's internals are not modelled either; the seen-set is a Dafny `set`.
- Signal wiring (src/menu.c:252-254) is not modelled. The handlers are two methods of `StartMenu`, called one event at a time.
- The host enumeration `g_app_info_get_all` is not modelled. It becomes the constructor's parameter `host`; a failed enumeration is an empty `host`.
- GTK's own selection bookkeeping is not modelled. GTK emits `row-selected` with the row it has just selected, so `OnCategorySelected` records its argument as the selection. `OnSearchChanged` reads that record.
- `Menu.StartMenu.OnCategorySelected` filters by `query`, which is the text delivered by the last `search-changed` signal. The C code reads the search entry's live text (src/menu.c:138). A `GtkSearchEntry` (src/menu.c:224) emits `search-changed` only after a short delay following the last edit. A category click inside that delay therefore filters by newer text in the C code than in the model, until the next `search-changed` arrives. The model does not keep the entry's live text as a separate field.
- `Menu.StartMenu.LaunchSelected` identifies a row of the application list by its position. A row with no "appinfo" attached is represented by a position with no row. Every row that `populate_apps` creates has an entry attached.
- src/plugin.c is not part of this model. It covers popup positioning, show/hide of the single popup window, and panel-plugin registration, all GUI and host-runtime glue.
