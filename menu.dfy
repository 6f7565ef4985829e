/**
 * The launcher menu of src/menu.c: the categoriser, the text matcher, the
 * filter that builds the application rows, the discovery of category rows,
 * the loader's visibility filter, and the menu object whose two event
 * handlers recompute the rows.
 */
module Menu {

  import opened Wrappers
  import opened Text
  import opened Seqs

  /**
   * What the menu reads from one host application entry (a GAppInfo that
   * is also a GDesktopAppInfo): its display name and its "Categories"
   * string, each possibly NULL, whether the host says it should be shown,
   * and whether the non-NULL test on the result of the G_DESKTOP_APP_INFO
   * cast passes. That checked cast returns its argument, so for every entry
   * the host enumerates the flag is true.
   */
  datatype AppInfo = AppInfo(
    name: Option<string>,
    categories: Option<string>,
    shouldShow: bool,
    isDesktop: bool)

  // ---------------------------------------------------------------------
  // Categoriser (get_category)
  // ---------------------------------------------------------------------

  /** The nine labels a category row can carry. */
  datatype Category =
    | Internet | Office | System | Utilities | Development
    | Graphics | Multimedia | Games | Other

  /** The text get_category returns for each category. */
  function Label(c: Category): string
  {
    match c
    case Internet => "Internet"
    case Office => "Office"
    case System => "System"
    case Utilities => "Utilities"
    case Development => "Development"
    case Graphics => "Graphics"
    case Multimedia => "Multimedia"
    case Games => "Games"
    case Other => "Other"
  }

  const CategoryLabels: set<string> :=
    {"Internet", "Office", "System", "Utilities", "Development",
     "Graphics", "Multimedia", "Games", "Other"}

  /** Distinct categories have distinct labels, so a label names one category. */
  lemma LabelInjective(c: Category, d: Category)
    ensures Label(c) == Label(d) <==> c == d
  {
  }

  /**
   * The substring tests of get_category, taken in order against the raw
   * "Categories" value: the first tag found decides.
   */
  function Categorise(cats: Option<string>): (c: Category)
    ensures cats.None? ==> c == Other
    ensures cats == Some("") ==> c == Other
  {
    if cats.None? then Other
    else
      var s := cats.value;
      if Contains(s, "Network") then Internet
      else if Contains(s, "Office") then Office
      else if Contains(s, "System") then System
      else if Contains(s, "Utility") then Utilities
      else if Contains(s, "Development") then Development
      else if Contains(s, "Graphics") then Graphics
      else if Contains(s, "Audio") || Contains(s, "Video") then Multimedia
      else if Contains(s, "Game") then Games
      else Other
  }

  /** get_category: the label of the entry's category. */
  function GetCategory(app: AppInfo): (r: string)
    ensures r in CategoryLabels
    ensures app.categories.None? ==> r == "Other"
  {
    Label(Categorise(app.categories))
  }

  /** One line of the priority table: any of `tags` found yields `category`. */
  datatype Rule = Rule(tags: seq<string>, category: Category)

  /** The categoriser's priority order, highest first. */
  const PriorityRules: seq<Rule> := [
    Rule(["Network"], Internet),
    Rule(["Office"], Office),
    Rule(["System"], System),
    Rule(["Utility"], Utilities),
    Rule(["Development"], Development),
    Rule(["Graphics"], Graphics),
    Rule(["Audio", "Video"], Multimedia),
    Rule(["Game"], Games)
  ]

  predicate Fires(s: string, rule: Rule)
  {
    exists t :: t in rule.tags && Contains(s, t)
  }

  /** What each rule of the table tests, written out. */
  lemma RuleTests(s: string)
    ensures Fires(s, PriorityRules[0]) <==> Contains(s, "Network")
    ensures Fires(s, PriorityRules[1]) <==> Contains(s, "Office")
    ensures Fires(s, PriorityRules[2]) <==> Contains(s, "System")
    ensures Fires(s, PriorityRules[3]) <==> Contains(s, "Utility")
    ensures Fires(s, PriorityRules[4]) <==> Contains(s, "Development")
    ensures Fires(s, PriorityRules[5]) <==> Contains(s, "Graphics")
    ensures Fires(s, PriorityRules[6]) <==> Contains(s, "Audio") || Contains(s, "Video")
    ensures Fires(s, PriorityRules[7]) <==> Contains(s, "Game")
  {
  }

  /**
   * A present tag string gets the category of the k-th rule exactly when
   * that rule fires and no rule of higher priority does.
   */
  lemma FirstRuleWins(s: string, k: nat)
    requires k < |PriorityRules|
    ensures Categorise(Some(s)) == PriorityRules[k].category
        <==> Fires(s, PriorityRules[k]) && forall j :: 0 <= j < k ==> !Fires(s, PriorityRules[j])
  {
    RuleTests(s);
    var c := Categorise(Some(s));
    if k == 0 {
    } else if k == 1 {
    } else if k == 2 {
    } else if k == 3 {
    } else if k == 4 {
    } else if k == 5 {
    } else if k == 6 {
    } else {
    }
  }

  /** A present tag string is Other exactly when no rule fires. */
  lemma OtherWhenNoRuleFires(s: string)
    ensures Categorise(Some(s)) == Other <==> forall j :: 0 <= j < |PriorityRules| ==> !Fires(s, PriorityRules[j])
  {
    RuleTests(s);
  }

  // ---------------------------------------------------------------------
  // Text matcher (filter_app)
  // ---------------------------------------------------------------------

  /**
   * filter_app: an absent or empty query matches everything; otherwise an
   * entry without a display name never matches, and one with a name matches
   * when the ASCII-lowered query occurs in the ASCII-lowered name.
   */
  function FilterApp(app: AppInfo, query: Option<string>): bool
  {
    if query.None? || query.value == "" then true
    else if app.name.None? then false
    else Contains(AsciiDown(app.name.value), AsciiDown(query.value))
  }

  /**
   * filter_app matches exactly when the query is absent or empty, or the
   * entry has a name in which the query occurs with ASCII letters compared
   * regardless of case.
   */
  lemma FilterAppIff(app: AppInfo, query: Option<string>)
    ensures FilterApp(app, query) <==>
      (|| query.None? || query.value == ""
       || (app.name.Some? && exists i :: FoldedOccursAt(app.name.value, query.value, i)))
  {
    if query.Some? && query.value != "" && app.name.Some? {
      FoldedContainsIff(app.name.value, query.value);
    }
  }

  // ---------------------------------------------------------------------
  // Filter engine (populate_apps)
  // ---------------------------------------------------------------------

  /** The two tests an entry passes to get a row. */
  predicate Matches(app: AppInfo, category: Option<string>, query: Option<string>)
  {
    (category.None? || GetCategory(app) == category.value) && FilterApp(app, query)
  }

  /** The rows populate_apps emits for `apps`, a category label and a query. */
  function View(apps: seq<AppInfo>, category: Option<string>, query: Option<string>): seq<AppInfo>
  {
    Keep(apps, (a: AppInfo) => Matches(a, category, query))
  }

  /** populate_apps: one row per entry that passes both tests, appended in list order. */
  method PopulateApps(apps: seq<AppInfo>, category: Option<string>, query: Option<string>)
    returns (rows: seq<AppInfo>)
    ensures rows == View(apps, category, query)
  {
    rows := [];
    for i := 0 to |apps|
      invariant rows == View(apps[..i], category, query)
    {
      assert apps[..i + 1][..i] == apps[..i];
      var info := apps[i];
      if category.Some? && GetCategory(info) != category.value {
        continue;
      }
      if !FilterApp(info, query) {
        continue;
      }
      rows := rows + [info];
    }
    assert apps[..|apps|] == apps;
  }

  /**
   * The rows are exactly the entries at the positions that pass the
   * category test AND the text test, in list order, none repeated.
   */
  lemma ViewSelects(apps: seq<AppInfo>, category: Option<string>, query: Option<string>)
    returns (idx: seq<nat>)
    ensures Embedding(View(apps, category, query), apps, idx)
    ensures forall j :: 0 <= j < |apps| ==>
      (j in idx <==> (category.None? || GetCategory(apps[j]) == category.value) && FilterApp(apps[j], query))
  {
    idx := KeepSelects(apps, (a: AppInfo) => Matches(a, category, query));
  }

  /** With no category and an absent or empty query every entry gets a row. */
  lemma ViewUnfiltered(apps: seq<AppInfo>, query: Option<string>)
    requires query.None? || query == Some("")
    ensures View(apps, None, query) == apps
  {
    KeepAll(apps, (a: AppInfo) => Matches(a, None, query));
  }

  /** A category text that is not one of the nine labels selects nothing. */
  lemma ViewUnknownCategory(apps: seq<AppInfo>, category: string, query: Option<string>)
    requires category !in CategoryLabels
    ensures View(apps, Some(category), query) == []
  {
    forall k | 0 <= k < |apps|
      ensures !Matches(apps[k], Some(category), query)
    {
    }
    KeepNone(apps, (a: AppInfo) => Matches(a, Some(category), query));
  }

  /** Every row selected by a category label belongs to that category. */
  lemma ViewWithinCategory(apps: seq<AppInfo>, c: Category, query: Option<string>, k: nat)
    requires k < |View(apps, Some(Label(c)), query)|
    ensures Categorise(View(apps, Some(Label(c)), query)[k].categories) == c
  {
    var v := View(apps, Some(Label(c)), query);
    assert v[k] in v;
    LabelInjective(Categorise(v[k].categories), c);
  }

  /** The rows for a list of two parts are the rows of each part, in order. */
  lemma ViewAppend(apps: seq<AppInfo>, more: seq<AppInfo>, category: Option<string>, query: Option<string>)
    ensures View(apps + more, category, query) == View(apps, category, query) + View(more, category, query)
  {
    KeepAppend(apps, more, (a: AppInfo) => Matches(a, category, query));
  }

  // ---------------------------------------------------------------------
  // Category discovery (populate_categories)
  // ---------------------------------------------------------------------

  /** The category label of each entry, in list order. */
  function LabelsOf(apps: seq<AppInfo>): (r: seq<string>)
    ensures |r| == |apps|
    ensures forall k :: 0 <= k < |apps| ==> r[k] == GetCategory(apps[k])
    decreases |apps|
  {
    if apps == [] then [] else LabelsOf(apps[..|apps| - 1]) + [GetCategory(apps[|apps| - 1])]
  }

  /** The category rows: each label present, at its first occurrence. */
  function Categories(apps: seq<AppInfo>): seq<string>
  {
    Dedup(LabelsOf(apps))
  }

  /** populate_categories: one pass, a seen-set, a row the first time a label turns up. */
  method PopulateCategories(apps: seq<AppInfo>) returns (rows: seq<string>)
    ensures rows == Categories(apps)
  {
    var seen: set<string> := {};
    rows := [];
    for i := 0 to |apps|
      invariant rows == Dedup(LabelsOf(apps[..i]))
      invariant forall c :: c in seen <==> c in rows
    {
      assert apps[..i + 1][..i] == apps[..i];
      var cat := GetCategory(apps[i]);
      if cat !in seen {
        seen := seen + {cat};
        rows := rows + [cat];
      }
    }
    assert apps[..|apps|] == apps;
  }

  /**
   * The category rows hold no label twice; a label is a row exactly when
   * some entry has it; and the rows follow the order of each label's first
   * entry in the list.
   */
  lemma CategoriesSpec(apps: seq<AppInfo>) returns (first: seq<nat>)
    ensures Distinct(Categories(apps))
    ensures forall c :: c in Categories(apps) <==> exists a :: a in apps && GetCategory(a) == c
    ensures Increasing(first, |apps|) && |first| == |Categories(apps)|
    ensures forall k :: 0 <= k < |first| ==> GetCategory(apps[first[k]]) == Categories(apps)[k]
    ensures forall k, j :: 0 <= k < |first| && 0 <= j < first[k] ==> GetCategory(apps[j]) != Categories(apps)[k]
  {
    var labels := LabelsOf(apps);
    DedupDistinct(labels);
    first := DedupFirstOccurrences(labels);
    forall c
      ensures c in Categories(apps) <==> exists a :: a in apps && GetCategory(a) == c
    {
      if c in labels {
        var j :| 0 <= j < |labels| && labels[j] == c;
        assert apps[j] in apps;
      }
      if exists a :: a in apps && GetCategory(a) == c {
        var a :| a in apps && GetCategory(a) == c;
        var j :| 0 <= j < |apps| && apps[j] == a;
        assert labels[j] == c;
      }
    }
  }

  // ---------------------------------------------------------------------
  // Loader (load_apps)
  // ---------------------------------------------------------------------

  /** The guards of load_apps: the host says show it, and the cast's result is not NULL. */
  predicate IsListed(app: AppInfo)
  {
    app.shouldShow && app.isDesktop
  }

  /** The entries load_apps keeps, in host enumeration order. */
  function Listed(all: seq<AppInfo>): seq<AppInfo>
  {
    Keep(all, IsListed)
  }

  /** load_apps: prepend every listed entry, then reverse the list. */
  method LoadApps(all: seq<AppInfo>) returns (apps: seq<AppInfo>)
    ensures apps == Listed(all)
  {
    var list: seq<AppInfo> := [];
    for i := 0 to |all|
      invariant list == Reverse(Listed(all[..i]))
    {
      assert all[..i + 1][..i] == all[..i];
      var ai := all[i];
      assert Listed(all[..i + 1]) == Listed(all[..i]) + if IsListed(ai) then [ai] else [];
      if !ai.shouldShow {
        assert Listed(all[..i + 1]) == Listed(all[..i]);
        continue;
      }
      if !ai.isDesktop {
        assert Listed(all[..i + 1]) == Listed(all[..i]);
        continue;
      }
      ReverseSnoc(Listed(all[..i]), ai);
      list := [ai] + list;
    }
    assert all[..|all|] == all;
    ReverseReverse(Listed(all));
    apps := Reverse(list);
  }

  /**
   * The loaded list is exactly the host entries that are to be shown and
   * whose cast result is not NULL, in enumeration order, none repeated.
   */
  lemma ListedSelects(all: seq<AppInfo>) returns (idx: seq<nat>)
    ensures Embedding(Listed(all), all, idx)
    ensures forall j :: 0 <= j < |all| ==> (j in idx <==> all[j].shouldShow && all[j].isDesktop)
  {
    idx := KeepSelects(all, IsListed);
  }

  /**
   * When every cast yields a handle, as it does for each entry the host
   * enumerates, the loader keeps exactly the entries that are to be shown.
   */
  lemma ListedWhenCastsSucceed(all: seq<AppInfo>) returns (idx: seq<nat>)
    requires forall k :: 0 <= k < |all| ==> all[k].isDesktop
    ensures Embedding(Listed(all), all, idx)
    ensures forall j :: 0 <= j < |all| ==> (j in idx <==> all[j].shouldShow)
  {
    idx := ListedSelects(all);
  }

  // ---------------------------------------------------------------------
  // The menu object (XFStartMenu) and its handlers
  // ---------------------------------------------------------------------

  /** The label of a category row, or no category when there is no row. */
  function RowLabel(rows: seq<string>, row: Option<nat>): (c: Option<string>)
    requires row.Some? ==> row.value < |rows|
    ensures c.None? <==> row.None?
    ensures row.Some? ==> c == Some(rows[row.value])
    ensures c.Some? ==> c.value in rows
  {
    if row.Some? then Some(rows[row.value]) else None
  }

  /** What activating a row of the application list did. */
  datatype LaunchOutcome =
    | NoAction                   // no row, or a row without an attached entry
    | Launched(app: AppInfo)
    | LaunchFailed(app: AppInfo) // reported as a warning, nothing else happens

  class StartMenu {
    /** The loaded entries (m->apps), fixed once the menu is built. */
    const apps: seq<AppInfo>
    /** The labels of the category list's rows. */
    const categoryRows: seq<string>
    /** The selected category row, if any. */
    var selectedRow: Option<nat>
    /** The search text delivered by the last search-changed signal. */
    var query: string
    /** The entries behind the application list's rows, in row order. */
    var view: seq<AppInfo>

    /**
     * The category rows are those discovered from the entries, the selection
     * is one of them, and the application rows are always the filter of the
     * entries by the selected category and the current search text.
     */
    ghost predicate Valid()
      reads this
    {
      && categoryRows == Categories(apps)
      && (selectedRow.Some? ==> selectedRow.value < |categoryRows|)
      && view == View(apps, RowLabel(categoryRows, selectedRow), Some(query))
    }

    /**
     * xfstart_menu_new without its widgets: load the entries the host
     * enumerates, discover the categories, and list the rows for no category
     * and no query.
     */
    constructor (host: seq<AppInfo>)
      ensures Valid()
      ensures apps == Listed(host)
      ensures selectedRow == None && query == ""
      ensures view == apps
    {
      var loaded := LoadApps(host);
      var cats := PopulateCategories(loaded);
      var rows := PopulateApps(loaded, None, None);
      ViewUnfiltered(loaded, None);
      ViewUnfiltered(loaded, Some(""));
      apps := loaded;
      categoryRows := cats;
      selectedRow := None;
      query := "";
      view := rows;
    }

    /** on_category_selected: the new row's label (or none) with the current search text. */
    method OnCategorySelected(row: Option<nat>)
      requires Valid()
      requires row.Some? ==> row.value < |categoryRows|
      modifies this
      ensures Valid()
      ensures selectedRow == row && query == old(query)
      ensures view == View(apps, RowLabel(categoryRows, row), Some(old(query)))
      ensures row == old(selectedRow) ==> view == old(view)
    {
      selectedRow := row;
      var cat := RowLabel(categoryRows, row);
      view := PopulateApps(apps, cat, Some(query));
    }

    /** on_search_changed: the new text with the currently selected category. */
    method OnSearchChanged(text: string)
      requires Valid()
      modifies this
      ensures Valid()
      ensures query == text && selectedRow == old(selectedRow)
      ensures view == View(apps, RowLabel(categoryRows, old(selectedRow)), Some(text))
      ensures text == old(query) ==> view == old(view)
    {
      var cat := RowLabel(categoryRows, selectedRow);
      query := text;
      view := PopulateApps(apps, cat, Some(text));
    }

    /**
     * launch_selected: nothing without a row or without an entry attached
     * to it; otherwise the entry is launched, `launchSucceeds` standing for
     * what g_app_info_launch answers. The menu's state is never changed.
     */
    method LaunchSelected(row: Option<nat>, launchSucceeds: bool) returns (outcome: LaunchOutcome)
      ensures outcome.NoAction? <==> row.None? || row.value >= |view|
      ensures outcome.Launched? <==> row.Some? && row.value < |view| && launchSucceeds
      ensures !outcome.NoAction? ==> outcome.app == view[row.value]
    {
      if row.None? {
        return NoAction;
      }
      if row.value >= |view| {
        return NoAction;
      }
      var info := view[row.value];
      if !launchSucceeds {
        return LaunchFailed(info);
      }
      return Launched(info);
    }
  }
}
