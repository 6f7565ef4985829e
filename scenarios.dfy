/** Concrete cases of the menu's categoriser, matcher and filter. */
module MenuScenarios {

  import opened Wrappers
  import opened Text
  import opened Menu

  /** "Office;System;" resolves by priority, not by tag position. */
  lemma OfficeBeforeSystem()
    ensures Categorise(Some("Office;System;")) == Office
  {
    ContainsNeedsChar("Office;System;", "Network", 0);
    assert OccursAt("Office;System;", "Office", 0);
  }

  /** "Audio;Video;" is Multimedia; an empty tag string is Other. */
  lemma MultimediaAndEmpty()
    ensures Categorise(Some("Audio;Video;")) == Multimedia
    ensures Categorise(Some("")) == Other
  {
    var s := "Audio;Video;";
    ContainsNeedsChar(s, "Network", 0);
    ContainsNeedsChar(s, "Office", 0);
    ContainsNeedsChar(s, "System", 0);
    ContainsNeedsChar(s, "Utility", 0);
    ContainsNeedsChar(s, "Development", 0);
    ContainsNeedsChar(s, "Graphics", 0);
    assert OccursAt(s, "Audio", 0);
  }

  const Firefox := AppInfo(Some("Firefox"), Some("Network;"), true, true)
  const Writer := AppInfo(Some("LibreOffice Writer"), Some("Office;"), true, true)
  const Terminal := AppInfo(Some("GNOME Terminal"), Some("System;TerminalEmulator;"), true, true)
  const Registry := [Firefox, Writer, Terminal]

  lemma RegistryCategories()
    ensures GetCategory(Firefox) == "Internet"
    ensures GetCategory(Writer) == "Office"
    ensures GetCategory(Terminal) == "System"
  {
    assert OccursAt("Network;", "Network", 0);
    ContainsNeedsChar("Office;", "Network", 0);
    assert OccursAt("Office;", "Office", 0);
    var t := "System;TerminalEmulator;";
    ContainsNeedsChar(t, "Network", 0);
    ContainsNeedsChar(t, "Office", 0);
    assert OccursAt(t, "System", 0);
  }

  /** "FIRE" matches "Firefox", regardless of case. */
  lemma FireMatchesFirefox()
    ensures FilterApp(Firefox, Some("FIRE"))
    ensures FilterApp(Firefox, Some("fire"))
  {
    FilterAppIff(Firefox, Some("FIRE"));
    assert FoldedOccursAt("Firefox", "FIRE", 0);
    FilterAppIff(Firefox, Some("fire"));
    assert FoldedOccursAt("Firefox", "fire", 0);
  }

  /** "fire" does not match the other two names. */
  lemma FireMatchesOnlyFirefox()
    ensures !FilterApp(Writer, Some("fire"))
    ensures !FilterApp(Terminal, Some("fire"))
  {
    var n := "LibreOffice Writer";
    FilterAppIff(Writer, Some("fire"));
    forall i | 0 <= i <= |n| - 4
      ensures !FoldedOccursAt(n, "fire", i)
    {
      var k := if i == 6 then 1 else if i == 7 then 2 else 0;
      assert AsciiLower(n[i + k]) != AsciiLower("fire"[k]);
    }
    FilterAppIff(Terminal, Some("fire"));
    FoldedNeedsLetter("GNOME Terminal", "fire", 0);
  }

  /** "office" matches "LibreOffice Writer" only. */
  lemma OfficeMatches()
    ensures FilterApp(Writer, Some("office"))
    ensures !FilterApp(Firefox, Some("office"))
    ensures !FilterApp(Terminal, Some("office"))
  {
    OfficeMatchesWriter();
    FilterAppIff(Firefox, Some("office"));
    FoldedNeedsLetter("Firefox", "office", 4);
    FilterAppIff(Terminal, Some("office"));
    FoldedNeedsLetter("GNOME Terminal", "office", 4);
  }

  lemma OfficeMatchesWriter()
    ensures FilterApp(Writer, Some("office"))
  {
    FilterAppIff(Writer, Some("office"));
    assert FoldedOccursAt("LibreOffice Writer", "office", 5);
  }

  /** No category and an empty query list the whole registry, in order. */
  lemma ScenarioAllApps()
    ensures View(Registry, None, Some("")) == Registry
  {
    ViewUnfiltered(Registry, Some(""));
  }

  /** The Internet category alone gives Firefox. */
  lemma ScenarioInternet()
    ensures View(Registry, Some("Internet"), Some("")) == [Firefox]
  {
    RegistryCategories();
    SplitRegistry(Some("Internet"), Some(""));
  }

  /** The query "office" alone gives LibreOffice Writer. */
  lemma ScenarioOfficeQuery()
    ensures View(Registry, None, Some("office")) == [Writer]
  {
    OfficeMatches();
    SplitRegistry(None, Some("office"));
  }

  /** The Office category excludes Firefox although "fire" matches its name. */
  lemma ScenarioCategoryExcludes()
    ensures View(Registry, Some("Office"), Some("fire")) == []
  {
    RegistryCategories();
    FireMatchesFirefox();
    FireMatchesOnlyFirefox();
    SplitRegistry(Some("Office"), Some("fire"));
  }

  /** The registry's rows, entry by entry. */
  lemma SplitRegistry(category: Option<string>, query: Option<string>)
    ensures View(Registry, category, query)
         == View([Firefox], category, query) + View([Writer], category, query) + View([Terminal], category, query)
  {
    assert Registry == [Firefox] + [Writer] + [Terminal];
    ViewAppend([Firefox] + [Writer], [Terminal], category, query);
    ViewAppend([Firefox], [Writer], category, query);
  }
}
