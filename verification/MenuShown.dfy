/** What the menus of `wlmtool` come to on screen: for each desktop and theme file the very item
    the compositor shows for it, and no others.  */
module MenuShown {
  import opened MenuGroups
  import opened MenuThemes
  import opened MenuTypes
  import opened Options
  import opened RootMenu
  import MenuRoundTrip

  // ---------- Items on screen ----------

  /** The items shown are those of the tree's items, in some order. */
  lemma {:induction false} ShownIff(env: Env, t: Tree, item: Item)
    requires t.Menu?
    ensures item in MenuRoundTrip.ShownItems(env, t) <==>
            exists i :: 0 <= i < |t.items| && item == MenuRoundTrip.Shown(env, t.items[i])
  {
    MenuRoundTrip.ShownSorted(env, t);
    var shown := MenuRoundTrip.ShownItems(env, t);
    var each := seq(|t.items|, i requires 0 <= i < |t.items| => MenuRoundTrip.Shown(env, t.items[i]));
    assert item in shown <==> item in multiset(shown);
    assert item in each <==> item in multiset(each);
    if i :| 0 <= i < |t.items| && item == MenuRoundTrip.Shown(env, t.items[i]) {
      assert each[i] == item;
    }
  }

  // ---------- Groups ----------

  /** Addition `k` is the first to file its key in its category. */
  ghost predicate FilesFirst(additions: seq<Addition>, k: nat, category: string, e: Keyed) {
    && k < |additions|
    && additions[k] == Addition(category, Some(e))
    && forall j :: 0 <= j < k ==> !Files(additions[j], category, e.key)
  }

  lemma FilesFirstBefore(additions: seq<Addition>, k: nat, category: string, e: Keyed)
    requires k < |additions| - 1
    ensures FilesFirst(additions, k, category, e) <==> FilesFirst(additions[..|additions| - 1], k, category, e)
  {
    var before := additions[..|additions| - 1];
    assert forall j :: 0 <= j < |before| ==> before[j] == additions[j];
  }

  /** The entries of a category are those filed first with their key. */
  lemma {:induction false} EntriesIff(additions: seq<Addition>, category: string, e: Keyed)
    ensures e in EntriesOf(additions, category) <==> exists k: nat :: FilesFirst(additions, k, category, e)
  {
    if additions != [] {
      var last := |additions| - 1;
      var before, a := additions[..last], additions[last];
      EntriesIff(before, category, e);
      if k: nat :| FilesFirst(additions, k, category, e) {
        if k < last {
          FilesFirstBefore(additions, k, category, e);
        } else {
          LastFiles(additions, category, e);
        }
      }
      if k: nat :| FilesFirst(before, k, category, e) {
        FilesFirstBefore(additions, k, category, e);
      } else if e in EntriesOf(additions, category) {
        LastFiles(additions, category, e);
        assert FilesFirst(additions, last, category, e);
      }
    }
  }

  /** The last addition adds its entry exactly when no earlier one has filed the key. */
  lemma LastFiles(additions: seq<Addition>, category: string, e: Keyed)
    requires additions != []
    ensures var last := |additions| - 1;
            FilesFirst(additions, last, category, e) <==>
            && additions[last] == Addition(category, Some(e))
            && !HasKey(EntriesOf(additions[..last], category), e.key)
  {
    var last := |additions| - 1;
    var before := additions[..last];
    KeyIff(before, category, e.key);
    assert forall j :: 0 <= j < last ==> before[j] == additions[j];
  }

  ghost predicate HasCategory(additions: seq<Addition>, category: string) {
    exists k :: 0 <= k < |additions| && additions[k].category == category
  }

  lemma {:induction false} CategoriesIff(additions: seq<Addition>, category: string)
    ensures category in Categories(additions) <==> HasCategory(additions, category)
  {
    if additions != [] {
      var before := additions[..|additions| - 1];
      CategoriesIff(before, category);
      assert forall k :: 0 <= k < |before| ==> before[k] == additions[k];
    }
  }

  /** The screen item of an entry. */
  function EntryShown(env: Env, e: Keyed): Item {
    MenuRoundTrip.Shown(env, Entry(e.args))
  }

  /** A menu shows the entries and nothing else. */
  ghost predicate ShowsEntries(env: Env, shown: seq<Item>, entries: seq<Keyed>) {
    forall item :: item in shown <==> exists e :: e in entries && item == EntryShown(env, e)
  }

  lemma {:induction false} GroupItem(env: Env, g: Group, item: Item)
    ensures item in MenuRoundTrip.ShownItems(env, GroupTree(g)) <==>
            exists e :: e in g.entries && item == EntryShown(env, e)
  {
    ShownIff(env, GroupTree(g), item);
    var items := GroupTree(g).items;
    assert forall i :: 0 <= i < |items| ==> items[i] == Entry(g.entries[i].args);
    if i :| 0 <= i < |items| && item == MenuRoundTrip.Shown(env, items[i]) {
      assert g.entries[i] in g.entries && item == EntryShown(env, g.entries[i]);
    }
    if e :| e in g.entries && item == EntryShown(env, e) {
      var j :| 0 <= j < |g.entries| && g.entries[j] == e;
      assert item == MenuRoundTrip.Shown(env, items[j]);
    }
  }

  lemma GroupShown(env: Env, g: Group)
    ensures ShowsEntries(env, MenuRoundTrip.ShownItems(env, GroupTree(g)), g.entries)
  {
    forall item: Item
      ensures item in MenuRoundTrip.ShownItems(env, GroupTree(g)) <==>
              exists e :: e in g.entries && item == EntryShown(env, e)
    {
      GroupItem(env, g, item);
    }
  }

  /** A category has a submenu of its entries, or is disabled if it has none. */
  ghost predicate SubmenuShows(env: Env, shown: seq<Item>, category: string, entries: seq<Keyed>) {
    if entries == [] then Disabled(category) in shown
    else exists sub :: Submenu(category, sub) in shown && ShowsEntries(env, sub, entries)
  }

  lemma {:induction false} GroupInMenu(env: Env, title: string, groups: seq<Group>, i: nat)
    requires i < |groups|
    ensures SubmenuShows(env, MenuRoundTrip.ShownItems(env, GroupsTree(title, groups)),
                         groups[i].title, groups[i].entries)
  {
    var tree, sub := GroupsTree(title, groups), GroupTree(groups[i]);
    assert tree.items[i] == sub;
    ShownIff(env, tree, MenuRoundTrip.Shown(env, sub));
    GroupShown(env, groups[i]);
  }

  lemma {:induction false} CategoryShown(env: Env, title: string, additions: seq<Addition>, category: string)
    requires HasCategory(additions, category)
    ensures SubmenuShows(env, MenuRoundTrip.ShownItems(env, GroupsTree(title, PlacedAll(additions))), category,
                         EntriesOf(additions, category))
  {
    PlacedAllIs(additions);
    CategoriesIff(additions, category);
    var i :| 0 <= i < |Categories(additions)| && Categories(additions)[i] == category;
    GroupInMenu(env, title, PlacedAll(additions), i);
  }

  // ---------- Applications ----------

  /** The item is that of application `k`: its name, and the command that starts it. */
  ghost predicate IsApplication(env: Env, files: seq<DesktopFile>, k: nat, category: string, item: Item)
    requires SHELL_EXECUTE in env.actions && k < |files|
  {
    var f := files[k];
    && f.Application? && f.category == category && f.name.Some? && (f.tryExec.Some? || f.exec.Some?)
    && var program := if f.tryExec.Some? then f.tryExec.value else f.exec.value;
       item == Action(f.name.value, env.actions[SHELL_EXECUTE],
                      Some(if f.terminal then "/usr/bin/foot" + " " + program else program))
  }

  lemma {:induction false} FilingsIff(files: seq<DesktopFile>, a: Addition)
    requires AllUsable(files)
    ensures a in Filings(files) <==>
            exists k :: 0 <= k < |files| && files[k].Application? && a == files[k].Filing()
  {
    if files != [] {
      var before := files[..|files| - 1];
      FilingsIff(before, a);
      assert forall k :: 0 <= k < |before| ==> before[k] == files[k];
    }
  }

  lemma FilingShown(env: Env, files: seq<DesktopFile>, k: nat, category: string, item: Item)
    requires SHELL_EXECUTE in env.actions && k < |files| && files[k].Application? && files[k].Usable()
    ensures IsApplication(env, files, k, category, item) <==>
            files[k].category == category && item == EntryShown(env, files[k].Filing().entry.value)
  {
  }

  /** Without duplicates every addition's entry is in its category. */
  lemma {:induction false} AllFiled(additions: seq<Addition>, category: string, e: Keyed)
    requires NoDuplicates(additions)
    ensures e in EntriesOf(additions, category) <==> Addition(category, Some(e)) in additions
  {
    EntriesIff(additions, category, e);
    if Addition(category, Some(e)) in additions {
      var k :| 0 <= k < |additions| && additions[k] == Addition(category, Some(e));
      forall j | 0 <= j < k
        ensures !Files(additions[j], category, e.key)
      {
      }
      assert FilesFirst(additions, k, category, e);
    }
  }

  lemma {:induction false} ApplicationEntry(env: Env, files: seq<DesktopFile>, category: string, item: Item)
    requires SHELL_EXECUTE in env.actions && Makeable(files)
    ensures (exists e :: e in EntriesOf(Filings(files), category) && item == EntryShown(env, e)) <==>
            exists k :: 0 <= k < |files| && IsApplication(env, files, k, category, item)
  {
    var entries := EntriesOf(Filings(files), category);
    if e :| e in entries && item == EntryShown(env, e) {
      AllFiled(Filings(files), category, e);
      FilingsIff(files, Addition(category, Some(e)));
      var k :| 0 <= k < |files| && files[k].Application? && Addition(category, Some(e)) == files[k].Filing();
      FilingShown(env, files, k, category, item);
    }
    if k :| 0 <= k < |files| && IsApplication(env, files, k, category, item) {
      FilingShown(env, files, k, category, item);
      var e := files[k].Filing().entry.value;
      FilingsIff(files, files[k].Filing());
      AllFiled(Filings(files), category, e);
    }
  }

  /** The applications menu on screen: every category with an application has a submenu, which
      shows exactly its applications, each with its name and command. */
  lemma {:induction false} ApplicationsShown(env: Env, files: seq<DesktopFile>, k: nat)
    requires SHELL_EXECUTE in env.actions && Makeable(files) && k < |files| && files[k].Application?
    ensures var shown := MenuRoundTrip.ShownItems(env, GroupsTree("Applications", PlacedAll(Filings(files))));
            exists sub ::
              && Submenu(files[k].category, sub) in shown
              && ShowsApplications(env, sub, files, files[k].category)
  {
    var category, additions := files[k].category, Filings(files);
    FilingsIff(files, files[k].Filing());
    var n :| 0 <= n < |additions| && additions[n] == files[k].Filing();
    CategoryShown(env, "Applications", additions, category);
    AllFiled(additions, category, files[k].Filing().entry.value);
    var shown := MenuRoundTrip.ShownItems(env, GroupsTree("Applications", PlacedAll(additions)));
    var sub :| Submenu(category, sub) in shown && ShowsEntries(env, sub, EntriesOf(additions, category));
    ApplicationsOf(env, files, category, sub);
  }

  lemma ApplicationsOf(env: Env, files: seq<DesktopFile>, category: string, sub: seq<Item>)
    requires SHELL_EXECUTE in env.actions && Makeable(files)
    requires ShowsEntries(env, sub, EntriesOf(Filings(files), category))
    ensures ShowsApplications(env, sub, files, category)
  {
    forall item: Item
      ensures item in sub <==> exists j :: 0 <= j < |files| && IsApplication(env, files, j, category, item)
    {
      ApplicationEntry(env, files, category, item);
    }
  }

  ghost predicate ShowsApplications(env: Env, shown: seq<Item>, files: seq<DesktopFile>, category: string)
    requires SHELL_EXECUTE in env.actions
  {
    forall item :: item in shown <==> exists k :: 0 <= k < |files| && IsApplication(env, files, k, category, item)
  }

  // ---------- When the applications menu can be made ----------

  /** The file can be read and, if it is an application to be shown, has a name and something to
      execute. */
  predicate Fit(f: DesktopFile) {
    && !f.Unreadable?
    && (f.Application? ==> f.name.Some? && (f.exec.Some? || f.tryExec.Some?))
  }

  /** Two applications of one category from the same path. */
  predicate Clash(f: DesktopFile, g: DesktopFile) {
    f.Application? && g.Application? && f.category == g.category && f.path == g.path
  }

  ghost predicate NoClash(files: seq<DesktopFile>) {
    forall j, k :: 0 <= j < k < |files| ==> !Clash(files[j], files[k])
  }

  lemma {:induction false} NoDuplicatesMore(before: seq<Addition>, a: Addition)
    requires a.entry.Some?
    ensures NoDuplicates(before + [a]) <==>
            && NoDuplicates(before)
            && forall b :: b in before ==> !Files(b, a.category, a.entry.value.key)
  {
    var after := before + [a];
    assert forall n :: 0 <= n < |before| ==> after[n] == before[n];
    assert after[|before|] == a;
    if NoDuplicates(after) {
      NoDuplicatesPrefix(before, a);
      forall b | b in before
        ensures !Files(b, a.category, a.entry.value.key)
      {
        var n :| 0 <= n < |before| && before[n] == b;
        assert after[n] == b;
      }
    } else if NoDuplicates(before) {
      var m, n :| 0 <= m < n < |after| && after[m].entry.Some? && after[n].entry.Some?
                  && after[m].category == after[n].category && after[m].entry.value.key == after[n].entry.value.key;
      assert before[m] in before && Files(before[m], a.category, a.entry.value.key);
    }
  }

  lemma {:induction false} FilesClash(files: seq<DesktopFile>, f: DesktopFile)
    requires AllUsable(files) && f.Application? && f.Usable()
    ensures (forall b :: b in Filings(files) ==> !Files(b, f.category, f.path)) <==>
            forall k :: 0 <= k < |files| ==> !Clash(files[k], f)
  {
    if b :| b in Filings(files) && Files(b, f.category, f.path) {
      FilingsIff(files, b);
      var k :| 0 <= k < |files| && files[k].Application? && b == files[k].Filing();
      assert Clash(files[k], f);
    }
    if k :| 0 <= k < |files| && Clash(files[k], f) {
      FilingsIff(files, files[k].Filing());
      assert Files(files[k].Filing(), f.category, f.path);
    }
  }

  lemma NoClashMore(files: seq<DesktopFile>)
    requires files != []
    ensures var before, f := files[..|files| - 1], files[|files| - 1];
            NoClash(files) <==> NoClash(before) && forall k :: 0 <= k < |before| ==> !Clash(before[k], f)
  {
    var before := files[..|files| - 1];
    assert forall k :: 0 <= k < |before| ==> before[k] == files[k];
  }

  /** The menu can be made exactly when every desktop file is fit, and no two applications of one
      category come from the same path. */
  lemma {:induction false} MakeableIff(files: seq<DesktopFile>)
    ensures Makeable(files) <==> (forall k :: 0 <= k < |files| ==> Fit(files[k])) && NoClash(files)
  {
    if files != [] {
      var n := |files| - 1;
      var before, f := files[..n], files[n];
      assert files[..n + 1] == files;
      assert forall k :: 0 <= k < |before| ==> before[k] == files[k];
      MakeableIff(before);
      NoClashMore(files);
      if Makeable(files) {
        MakeablePrefix(files, n);
      }
      if Makeable(before) {
        MakeableStep(files, n);
        MakeableMore(before, f);
      }
    }
  }

  lemma MakeableMore(before: seq<DesktopFile>, f: DesktopFile)
    requires Makeable(before)
    ensures f.Usable() <==> Fit(f)
    ensures f.Usable() ==>
      (NoDuplicates(Filings(before) + f.Filings()) <==> forall k :: 0 <= k < |before| ==> !Clash(before[k], f))
  {
    if f.Application? && f.Usable() {
      NoDuplicatesMore(Filings(before), f.Filing());
      FilesClash(before, f);
    } else if f.Usable() {
      assert Filings(before) + f.Filings() == Filings(before);
    }
  }

  // ---------- Themes ----------

  /** The item is that of theme file `i`, the first of its path: its name, and the path to load. */
  ghost predicate IsTheme(env: Env, themes: seq<Theme>, i: nat, item: Item)
    requires LOAD_THEME in env.actions && i < |themes|
  {
    && themes[i].name.Some?
    && item == Action(themes[i].name.value, env.actions[LOAD_THEME], Some(themes[i].path))
    && forall k :: 0 <= k < i ==> themes[k].path != themes[i].path
  }

  ghost predicate ShowsThemes(env: Env, shown: seq<Item>, themes: seq<Theme>)
    requires LOAD_THEME in env.actions
  {
    forall item :: item in shown <==> exists i :: 0 <= i < |themes| && IsTheme(env, themes, i, item)
  }

  lemma ThemeShown(env: Env, t: Theme)
    requires LOAD_THEME in env.actions && t.name.Some?
    ensures EntryShown(env, ThemeEntry(t)) == Action(t.name.value, env.actions[LOAD_THEME], Some(t.path))
  {
  }

  /** Among additions that hold the themes' entries from position `from` on, in one category. */
  ghost predicate ListsThemes(additions: seq<Addition>, from: nat, category: string, themes: seq<Theme>)
    requires Readable(themes)
  {
    && from + |themes| <= |additions|
    && (forall i :: 0 <= i < |themes| ==> additions[from + i] == Addition(category, Some(ThemeEntry(themes[i]))))
    && forall k :: 0 <= k < |additions| && !(from <= k < from + |themes|) && additions[k].category == category ==>
         additions[k].entry.None?
  }

  lemma {:induction false} ThemeEntryIff(env: Env, additions: seq<Addition>, from: nat, category: string,
                                         themes: seq<Theme>, item: Item)
    requires LOAD_THEME in env.actions && Readable(themes) && ListsThemes(additions, from, category, themes)
    ensures (exists e :: e in EntriesOf(additions, category) && item == EntryShown(env, e)) <==>
            exists i :: 0 <= i < |themes| && IsTheme(env, themes, i, item)
  {
    var entries := EntriesOf(additions, category);
    if e :| e in entries && item == EntryShown(env, e) {
      EntriesIff(additions, category, e);
      var k: nat :| FilesFirst(additions, k, category, e);
      var i := k - from;
      ThemeShown(env, themes[i]);
      forall j | 0 <= j < i
        ensures themes[j].path != themes[i].path
      {
        assert !Files(additions[from + j], category, e.key);
      }
      assert IsTheme(env, themes, i, item);
    }
    if i :| 0 <= i < |themes| && IsTheme(env, themes, i, item) {
      var e := ThemeEntry(themes[i]);
      ThemeShown(env, themes[i]);
      forall j | 0 <= j < from + i
        ensures !Files(additions[j], category, e.key)
      {
        if from <= j {
          assert additions[from + (j - from)] == Addition(category, Some(ThemeEntry(themes[j - from])));
        }
      }
      assert FilesFirst(additions, from + i, category, e);
      EntriesIff(additions, category, e);
    }
  }

  /** A category of themes on screen. */
  ghost predicate CategoryShowsThemes(env: Env, shown: seq<Item>, category: string, themes: seq<Theme>)
    requires LOAD_THEME in env.actions
  {
    if themes == [] then Disabled(category) in shown
    else exists sub :: Submenu(category, sub) in shown && ShowsThemes(env, sub, themes)
  }

  lemma {:induction false} ThemeCategory(env: Env, additions: seq<Addition>, from: nat, category: string,
                                         themes: seq<Theme>)
    requires LOAD_THEME in env.actions && Readable(themes)
    requires HasCategory(additions, category) && ListsThemes(additions, from, category, themes)
    ensures CategoryShowsThemes(env, MenuRoundTrip.ShownItems(env, GroupsTree(APPEARANCE, PlacedAll(additions))),
                                category, themes)
  {
    var entries := EntriesOf(additions, category);
    var shown := MenuRoundTrip.ShownItems(env, GroupsTree(APPEARANCE, PlacedAll(additions)));
    CategoryShown(env, APPEARANCE, additions, category);
    SomeEntryIff(env, additions, from, category, themes);
    if entries != [] {
      var sub :| Submenu(category, sub) in shown && ShowsEntries(env, sub, entries);
      ThemesOf(env, additions, from, category, themes, sub);
    }
  }

  lemma ThemesOf(env: Env, additions: seq<Addition>, from: nat, category: string, themes: seq<Theme>, sub: seq<Item>)
    requires LOAD_THEME in env.actions && Readable(themes) && ListsThemes(additions, from, category, themes)
    requires ShowsEntries(env, sub, EntriesOf(additions, category))
    ensures ShowsThemes(env, sub, themes)
  {
    forall item: Item
      ensures item in sub <==> exists i :: 0 <= i < |themes| && IsTheme(env, themes, i, item)
    {
      ThemeEntryIff(env, additions, from, category, themes, item);
    }
  }

  lemma {:induction false} SomeEntryIff(env: Env, additions: seq<Addition>, from: nat, category: string,
                                        themes: seq<Theme>)
    requires LOAD_THEME in env.actions && Readable(themes) && ListsThemes(additions, from, category, themes)
    ensures EntriesOf(additions, category) == [] <==> themes == []
  {
    var entries := EntriesOf(additions, category);
    if entries != [] {
      assert entries[0] in entries;
      ThemeEntryIff(env, additions, from, category, themes, EntryShown(env, entries[0]));
    }
    if themes != [] {
      ThemeShown(env, themes[0]);
      ThemeEntryIff(env, additions, from, category, themes, EntryShown(env, ThemeEntry(themes[0])));
      assert IsTheme(env, themes, 0, EntryShown(env, ThemeEntry(themes[0])));
    }
  }

  /** The appearance menu of system and user on screen. */
  lemma {:induction false} ThemesShown(env: Env, system: seq<Theme>, user: seq<Theme>)
    requires LOAD_THEME in env.actions && Readable(system) && Readable(user)
    ensures var shown := MenuRoundTrip.ShownItems(env, ThemesTree(system, user));
            && CategoryShowsThemes(env, shown, "System Themes", system)
            && CategoryShowsThemes(env, shown, "User Themes", user)
  {
    var additions := Listing(SYSTEM, system) + Listing(USER, user);
    assert additions[0] == Addition(SYSTEM, None) && additions[|system| + 1] == Addition(USER, None);
    ListingsList(system, user);
    ThemeCategory(env, additions, 1, SYSTEM, system);
    ThemeCategory(env, additions, |system| + 2, USER, user);
  }

  lemma ListingsList(system: seq<Theme>, user: seq<Theme>)
    requires Readable(system) && Readable(user)
    ensures var additions := Listing(SYSTEM, system) + Listing(USER, user);
            ListsThemes(additions, 1, SYSTEM, system) && ListsThemes(additions, |system| + 2, USER, user)
  {
    assert SYSTEM[0] != USER[0];
  }

  /** The item is a theme's, of another path than the submenu's key. */
  ghost predicate IsListed(env: Env, themes: seq<Theme>, item: Item)
    requires LOAD_THEME in env.actions
  {
    exists i :: 0 <= i < |themes| && IsTheme(env, themes, i, item) && themes[i].path != "System Themes"
  }

  lemma EntryIsListed(env: Env, themes: seq<Theme>, entries: seq<Keyed>, j: nat)
    requires LOAD_THEME in env.actions && Readable(themes) && 1 <= j < |entries|
    requires FirstsFrom(entries, 1, themes) && DistinctKeys(entries) && entries[0].key == SYSTEM
    ensures IsListed(env, themes, EntryShown(env, entries[j]))
  {
    assert FirstOfPath(entries[j], themes);
    assert entries[0].key != entries[j].key;
    ListedTheme(env, themes, entries[j]);
  }

  lemma ListedIsEntry(env: Env, themes: seq<Theme>, entries: seq<Keyed>, item: Item) returns (j: nat)
    requires LOAD_THEME in env.actions && Readable(themes) && IsListed(env, themes, item)
    requires entries != [] && FirstsFrom(entries, 1, themes) && entries[0].key == SYSTEM
    requires forall i :: 0 <= i < |themes| ==> HasKey(entries, themes[i].path)
    ensures 1 <= j < |entries| && item == EntryShown(env, entries[j])
  {
    var i :| 0 <= i < |themes| && IsTheme(env, themes, i, item) && themes[i].path != "System Themes";
    j := ThemeListed(themes, entries, i);
    ThemeShown(env, themes[i]);
  }

  lemma GivenItems(env: Env, themes: seq<Theme>)
    requires Readable(themes)
    ensures var items, entries := GivenTree(themes).items, Listed([Keyed(SYSTEM, [])], themes);
            && |items| == |entries| > 0 && entries[0].key == SYSTEM
            && MenuRoundTrip.Shown(env, items[0]) == Disabled(SYSTEM)
            && forall j :: 1 <= j < |items| ==> MenuRoundTrip.Shown(env, items[j]) == EntryShown(env, entries[j])
  {
    var entries := Listed([Keyed(SYSTEM, [])], themes);
    assert entries[..1][0] == Keyed(SYSTEM, []);
  }

  /** The appearance menu of one directory on screen: the empty submenu, and each theme file
      once. */
  lemma {:induction false} GivenShown(env: Env, themes: seq<Theme>, item: Item)
    requires LOAD_THEME in env.actions && Readable(themes)
    ensures item in MenuRoundTrip.ShownItems(env, GivenTree(themes)) <==>
            item == Disabled("System Themes") || IsListed(env, themes, item)
  {
    ShownIff(env, GivenTree(themes), item);
    GivenItems(env, themes);
    ListedAreFirst([Keyed(SYSTEM, [])], themes);
    AllListed([Keyed(SYSTEM, [])], themes);
    GivenItemIff(env, themes, GivenTree(themes).items, Listed([Keyed(SYSTEM, [])], themes), item);
  }

  lemma {:induction false} GivenItemIff(env: Env, themes: seq<Theme>, items: seq<Tree>, entries: seq<Keyed>, item: Item)
    requires LOAD_THEME in env.actions && Readable(themes) && |items| == |entries| > 0 && entries[0].key == SYSTEM
    requires MenuRoundTrip.Shown(env, items[0]) == Disabled(SYSTEM)
    requires forall j :: 1 <= j < |items| ==> MenuRoundTrip.Shown(env, items[j]) == EntryShown(env, entries[j])
    requires FirstsFrom(entries, 1, themes) && DistinctKeys(entries)
    requires forall i :: 0 <= i < |themes| ==> HasKey(entries, themes[i].path)
    ensures (exists j :: 0 <= j < |items| && item == MenuRoundTrip.Shown(env, items[j])) <==>
            item == Disabled(SYSTEM) || IsListed(env, themes, item)
  {
    if j :| 0 <= j < |items| && item == MenuRoundTrip.Shown(env, items[j]) {
      if j > 0 {
        EntryIsListed(env, themes, entries, j);
      }
    }
    if item == Disabled(SYSTEM) {
      assert item == MenuRoundTrip.Shown(env, items[0]);
    } else if IsListed(env, themes, item) {
      var j := ListedIsEntry(env, themes, entries, item);
      assert item == MenuRoundTrip.Shown(env, items[j]);
    }
  }

  lemma ListedTheme(env: Env, themes: seq<Theme>, e: Keyed)
    requires LOAD_THEME in env.actions && Readable(themes) && FirstOfPath(e, themes)
    ensures exists i :: 0 <= i < |themes| && IsTheme(env, themes, i, EntryShown(env, e)) && themes[i].path == e.key
  {
    var i :| 0 <= i < |themes| && e == ThemeEntry(themes[i]) && forall k :: 0 <= k < i ==> themes[k].path != e.key;
    ThemeShown(env, themes[i]);
    assert IsTheme(env, themes, i, EntryShown(env, e));
  }

  lemma ThemeListed(themes: seq<Theme>, entries: seq<Keyed>, i: nat) returns (j: nat)
    requires Readable(themes) && i < |themes| && forall k :: 0 <= k < i ==> themes[k].path != themes[i].path
    requires entries != [] && entries[0].key != themes[i].path && FirstsFrom(entries, 1, themes)
    requires HasKey(entries, themes[i].path)
    ensures 1 <= j < |entries| && entries[j] == ThemeEntry(themes[i])
  {
    j :| 0 <= j < |entries| && entries[j].key == themes[i].path;
    assert FirstOfPath(entries[j], themes);
    var k :| 0 <= k < |themes| && entries[j] == ThemeEntry(themes[k])
             && forall n :: 0 <= n < k ==> themes[n].path != entries[j].key;
    assert k == i;
  }
}
