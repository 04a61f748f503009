/** The appearance menu of `wlmtool` (`tool/menu.c`): the theme files of the system and of the
    user in a submenu each, or those of one given directory beside an empty submenu.  */
module MenuThemes {
  import opened MenuGenerator
  import opened MenuGroups
  import opened MenuTool
  import opened MenuTypes
  import opened Options
  import MenuRoundTrip
  import RootMenu

  const LOAD_THEME := "ThemeLoadFromFile"
  const APPEARANCE := "Appearance"
  const SYSTEM := "System Themes"
  const USER := "User Themes"

  /** A theme file; it has no name when it cannot be read as a dictionary. */
  datatype Theme = Theme(path: string, name: Option<string>)

  predicate Readable(themes: seq<Theme>) {
    forall i :: 0 <= i < |themes| ==> themes[i].name.Some?
  }

  function ThemeEntry(t: Theme): Keyed
    requires t.name.Some?
  {
    Keyed(t.path, [t.name.value, LOAD_THEME, t.path])
  }

  function InCategory(category: string, themes: seq<Theme>): (r: seq<Addition>)
    requires Readable(themes)
    ensures |r| == |themes|
  {
    seq(|themes|, i requires 0 <= i < |themes| => Addition(category, Some(ThemeEntry(themes[i]))))
  }

  // ---------- Submenus of themes ----------

  /** One more entry for a category that has its submenu. */
  lemma PlacedMore(before: seq<Addition>, category: string, e: Keyed)
    requires Position(PlacedAll(before), category) < |PlacedAll(before)|
    ensures var groups, p := PlacedAll(before), Position(PlacedAll(before), category);
            var after := PlacedAll(before + [Addition(category, Some(e))]);
            after == FiledAt(groups, p, e) && Position(after, category) == p
  {
    var groups, p := PlacedAll(before), Position(PlacedAll(before), category);
    assert (before + [Addition(category, Some(e))])[..|before|] == before;
    var after := FiledAt(groups, p, e);
    assert forall i :: 0 <= i < |groups| ==> after[i].title == groups[i].title;
    PositionByTitle(groups, after, category);
  }

  lemma {:induction false} PositionByTitle(groups: seq<Group>, after: seq<Group>, title: string)
    requires |groups| == |after| && forall i :: 0 <= i < |groups| ==> after[i].title == groups[i].title
    ensures Position(groups, title) == Position(after, title)
  {
    if groups != [] && groups[0].title != title {
      PositionByTitle(groups[1..], after[1..], title);
    }
  }

  /** Position and submenu of a category, as a reference to fill it through. */
  ghost predicate Refers(root: ToolMenu, sub: ToolMenu, groups: seq<Group>, category: string)
    requires root.Valid()
    reads root, root.Repr
  {
    && Matches(root, groups)
    && Position(groups, category) < |root.items|
    && root.items[Position(groups, category)] == SubItem(sub)
  }

  /** Adds a theme file to the submenu, unless it is there already.  It fails if the file
      cannot be read. */
  method AddThemesFile(root: ToolMenu, sub: ToolMenu, t: Theme, ghost before: seq<Addition>, ghost category: string)
      returns (ok: bool)
    requires root.Valid() && Refers(root, sub, PlacedAll(before), category)
    modifies sub
    ensures root.Valid() && root.Repr == old(root.Repr)
    ensures ok <==> t.name.Some?
    ensures ok ==> Refers(root, sub, PlacedAll(before + [Addition(category, Some(ThemeEntry(t)))]), category)
  {
    if t.name.None? {
      return false;
    }
    var item := EntryCreate(t.path, [t.name.value, LOAD_THEME, t.path]);
    ghost var groups := PlacedAll(before);
    PlacedMore(before, category, ThemeEntry(t));
    assert root.Holds(sub);
    var added := FileEntry(root, sub, t.path, item.value.args, groups, Position(groups, category));
    return true;
  }

  /** The same for all files found, up to the first that cannot be read. */
  method AddThemesPath(root: ToolMenu, sub: ToolMenu, themes: seq<Theme>,
                       ghost before: seq<Addition>, ghost category: string)
      returns (ok: bool)
    requires root.Valid() && Refers(root, sub, PlacedAll(before), category)
    modifies sub
    ensures root.Valid() && root.Repr == old(root.Repr)
    ensures ok <==> Readable(themes)
    ensures ok ==> Refers(root, sub, PlacedAll(before + InCategory(category, themes)), category)
  {
    assert before + InCategory(category, themes[..0]) == before;
    for i := 0 to |themes|
      invariant root.Valid() && root.Repr == old(root.Repr)
      invariant Readable(themes[..i])
      invariant Refers(root, sub, PlacedAll(before + InCategory(category, themes[..i])), category)
    {
      ok := AddThemesFile(root, sub, themes[i], before + InCategory(category, themes[..i]), category);
      if !ok {
        return false;
      }
      InCategoryStep(before, category, themes, i);
    }
    assert themes[..|themes|] == themes;
    return true;
  }

  lemma InCategoryStep(before: seq<Addition>, category: string, themes: seq<Theme>, i: nat)
    requires i < |themes| && Readable(themes[..i]) && themes[i].name.Some?
    ensures Readable(themes[..i + 1])
    ensures before + InCategory(category, themes[..i]) + [Addition(category, Some(ThemeEntry(themes[i])))]
            == before + InCategory(category, themes[..i + 1])
  {
  }

  /** What is added for a category: its submenu, then the files. */
  function Listing(category: string, themes: seq<Theme>): seq<Addition>
    requires Readable(themes)
  {
    [Addition(category, None)] + InCategory(category, themes)
  }

  /** The submenu of a category, made if need be, with all files found. */
  method AddThemes(root: ToolMenu, category: string, themes: seq<Theme>, ghost before: seq<Addition>)
      returns (ok: bool)
    requires root.Valid() && Matches(root, PlacedAll(before))
    modifies root.Repr
    ensures root.Valid() && fresh(root.Repr - old(root.Repr))
    ensures ok <==> Readable(themes)
    ensures ok ==> Matches(root, PlacedAll(before + Listing(category, themes)))
  {
    var sub := ThemesSubmenu(root, category, before);
    ok := AddThemesPath(root, sub, themes, before + [Addition(category, None)], category);
    if ok {
      ListingAppends(before, category, themes);
    }
  }

  method ThemesSubmenu(root: ToolMenu, category: string, ghost before: seq<Addition>) returns (sub: ToolMenu)
    requires root.Valid() && Matches(root, PlacedAll(before))
    modifies root
    ensures root.Valid() && fresh(root.Repr - old(root.Repr))
    ensures sub in root.Repr && (sub in old(root.Repr) || fresh(sub))
    ensures Refers(root, sub, PlacedAll(before + [Addition(category, None)]), category)
  {
    CategoryThere(before, category);
    sub := EnsureGroup(root, category, PlacedAll(before));
    assert Submenu(root, Position(PlacedAll(before), category));
  }

  lemma ListingAppends(before: seq<Addition>, category: string, themes: seq<Theme>)
    requires Readable(themes)
    ensures before + [Addition(category, None)] + InCategory(category, themes) == before + Listing(category, themes)
  {
  }

  lemma CategoryThere(before: seq<Addition>, category: string)
    ensures var groups := PlacedAll(before);
            var after := PlacedAll(before + [Addition(category, None)]);
            after == WithGroup(groups, category) && Position(after, category) == Position(groups, category)
  {
    assert (before + [Addition(category, None)])[..|before|] == before;
    AppendedPosition(PlacedAll(before), category);
  }

  lemma {:induction false} AppendedPosition(groups: seq<Group>, title: string)
    ensures Position(WithGroup(groups, title), title) == Position(groups, title)
  {
    var after, p := WithGroup(groups, title), Position(groups, title);
    assert forall j :: 0 <= j < p ==> after[j].title == groups[j].title;
  }

  // ---------- One given directory ----------

  /** Entries added to those there, each key once. */
  function Listed(there: seq<Keyed>, themes: seq<Theme>): (r: seq<Keyed>)
    requires Readable(themes)
    ensures |r| >= |there|
    ensures r[..|there|] == there
  {
    if themes == [] then there
    else Filed(Listed(there, themes[..|themes| - 1]), ThemeEntry(themes[|themes| - 1]))
  }

  ghost predicate DistinctKeys(entries: seq<Keyed>) {
    forall i, j :: 0 <= i < j < |entries| ==> entries[i].key != entries[j].key
  }

  /** The entry is that of the first file with its path. */
  ghost predicate FirstOfPath(e: Keyed, themes: seq<Theme>)
    requires Readable(themes)
  {
    exists i :: 0 <= i < |themes| && e == ThemeEntry(themes[i]) && forall k :: 0 <= k < i ==> themes[k].path != e.key
  }

  /** From position `n` on, all entries are. */
  ghost predicate FirstsFrom(entries: seq<Keyed>, n: nat, themes: seq<Theme>)
    requires Readable(themes)
  {
    forall j :: n <= j < |entries| ==> FirstOfPath(entries[j], themes)
  }

  lemma FirstStays(e: Keyed, themes: seq<Theme>)
    requires themes != [] && Readable(themes) && FirstOfPath(e, themes[..|themes| - 1])
    ensures FirstOfPath(e, themes)
  {
    var before := themes[..|themes| - 1];
    var i :| 0 <= i < |before| && e == ThemeEntry(before[i]) && forall k :: 0 <= k < i ==> before[k].path != e.key;
    assert e == ThemeEntry(themes[i]) && forall k :: 0 <= k < i ==> themes[k].path == before[k].path;
  }

  lemma NewIsFirst(earlier: seq<Keyed>, themes: seq<Theme>)
    requires themes != [] && Readable(themes) && !HasKey(earlier, themes[|themes| - 1].path)
    requires forall i :: 0 <= i < |themes| - 1 ==> HasKey(earlier, themes[i].path)
    ensures FirstOfPath(ThemeEntry(themes[|themes| - 1]), themes)
  {
  }

  /** The new entries are those of the first file of each path. */
  lemma {:induction false} ListedAreFirst(there: seq<Keyed>, themes: seq<Theme>)
    requires Readable(themes)
    ensures FirstsFrom(Listed(there, themes), |there|, themes)
  {
    if themes != [] {
      var before := themes[..|themes| - 1];
      var earlier, r := Listed(there, before), Listed(there, themes);
      ListedAreFirst(there, before);
      AllListed(there, before);
      forall j | |there| <= j < |r|
        ensures FirstOfPath(r[j], themes)
      {
        if j < |earlier| {
          assert FirstOfPath(earlier[j], before);
          FirstStays(earlier[j], themes);
        } else {
          NewIsFirst(earlier, themes);
        }
      }
    }
  }

  /** Every path is listed, and no key twice. */
  lemma {:induction false} AllListed(there: seq<Keyed>, themes: seq<Theme>)
    requires Readable(themes)
    ensures forall i :: 0 <= i < |themes| ==> HasKey(Listed(there, themes), themes[i].path)
    ensures DistinctKeys(there) ==> DistinctKeys(Listed(there, themes))
  {
    if themes != [] {
      var before, t := themes[..|themes| - 1], themes[|themes| - 1];
      AllListed(there, before);
      forall i | 0 <= i < |themes|
        ensures HasKey(Listed(there, themes), themes[i].path)
      {
        FiledHas(Listed(there, before), ThemeEntry(t), themes[i].path);
        assert i < |before| ==> HasKey(Listed(there, before), before[i].path);
      }
    }
  }

  lemma FiledHas(entries: seq<Keyed>, e: Keyed, key: string)
    ensures HasKey(Filed(entries, e), key) <==> HasKey(entries, key) || key == e.key
  {
    var r := Filed(entries, e);
    if HasKey(entries, key) {
      var j :| 0 <= j < |entries| && entries[j].key == key;
      assert r[j].key == key;
    } else if key == e.key {
      assert r[|entries|].key == key;
    }
  }

  /** The menu's items: an empty submenu, then the entries. */
  ghost predicate Lists(root: ToolMenu, entries: seq<Keyed>)
    requires root.Valid()
    reads root, root.Repr
  {
    && |root.items| == |entries| > 0
    && Submenu(root, 0)
    && root.items[0].menu.title == entries[0].key
    && root.items[0].menu.items == []
    && forall j :: 1 <= j < |entries| ==> root.items[j] == EntryItem(entries[j].key, entries[j].args)
  }

  lemma RootKeyTakenIff(root: ToolMenu, entries: seq<Keyed>, key: string)
    requires root.Valid() && Lists(root, entries)
    ensures key in root.index <==> HasKey(entries, key)
  {
    assert forall j :: 0 <= j < |entries| ==> root.items[j].Key() == entries[j].key;
    if key in root.index {
      var j :| 0 <= j < |root.items| && root.items[j] == root.index[key];
      assert entries[j].key == key;
    }
    if HasKey(entries, key) {
      var j :| 0 <= j < |entries| && entries[j].key == key;
      assert root.items[j].Key() == key;
    }
  }

  method AddToRoot(root: ToolMenu, t: Theme, ghost entries: seq<Keyed>) returns (ok: bool)
    requires root.Valid() && Lists(root, entries)
    modifies root
    ensures root.Valid() && root.Repr == old(root.Repr)
    ensures ok <==> t.name.Some?
    ensures ok ==> Lists(root, Filed(entries, ThemeEntry(t)))
  {
    if t.name.None? {
      return false;
    }
    var item := EntryCreate(t.path, [t.name.value, LOAD_THEME, t.path]);
    RootKeyTakenIff(root, entries, t.path);
    assert root.Holds(root.items[0].menu);
    var added := root.AddItem(item.value);
    return true;
  }

  lemma ListedStep(there: seq<Keyed>, themes: seq<Theme>, i: nat)
    requires i < |themes| && Readable(themes[..i]) && themes[i].name.Some?
    ensures Readable(themes[..i + 1])
    ensures Listed(there, themes[..i + 1]) == Filed(Listed(there, themes[..i]), ThemeEntry(themes[i]))
  {
    assert themes[..i + 1][..i] == themes[..i];
  }

  method AddAllToRoot(root: ToolMenu, themes: seq<Theme>, ghost entries: seq<Keyed>) returns (ok: bool)
    requires root.Valid() && Lists(root, entries)
    modifies root
    ensures root.Valid() && root.Repr == old(root.Repr)
    ensures ok <==> Readable(themes)
    ensures ok ==> Lists(root, Listed(entries, themes))
  {
    ghost var listed := entries;
    for i := 0 to |themes|
      invariant root.Valid() && root.Repr == old(root.Repr)
      invariant Readable(themes[..i]) && listed == Listed(entries, themes[..i])
      invariant Lists(root, listed)
    {
      ok := AddToRoot(root, themes[i], listed);
      if !ok {
        return false;
      }
      ListedStep(entries, themes, i);
      listed := Listed(entries, themes[..i + 1]);
    }
    assert themes[..|themes|] == themes;
    return true;
  }

  // ---------- The whole menu ----------

  /** The menu of one directory: an empty submenu and the entries. */
  function GivenTree(themes: seq<Theme>): Tree
    requires Readable(themes)
  {
    var entries := Listed([Keyed(SYSTEM, [])], themes);
    Menu(APPEARANCE, [Menu(SYSTEM, [])] + seq(|entries| - 1, j requires 0 <= j < |entries| - 1 =>
                                              Entry(entries[j + 1].args)))
  }

  /** The menu of system and user. */
  function ThemesTree(system: seq<Theme>, user: seq<Theme>): Tree
    requires Readable(system) && Readable(user)
  {
    GroupsTree(APPEARANCE, PlacedAll(Listing(SYSTEM, system) + Listing(USER, user)))
  }

  lemma TreeOfList(root: ToolMenu, themes: seq<Theme>)
    requires root.Valid() && root.title == APPEARANCE && Readable(themes)
    requires Lists(root, Listed([Keyed(SYSTEM, [])], themes))
    ensures root.Tree() == GivenTree(themes)
  {
    var entries := Listed([Keyed(SYSTEM, [])], themes);
    assert entries[..1][0] == Keyed(SYSTEM, []);
    var trees := root.Trees(|root.items|);
    assert root.Holds(root.items[0].menu);
    assert trees[0] == root.TreeAt(0) == Menu(SYSTEM, []);
    forall j | 1 <= j < |entries|
      ensures trees[j] == Entry(entries[j].args)
    {
      assert trees[j] == root.TreeAt(j);
    }
    assert trees == GivenTree(themes).items;
  }

  /** The menu of one directory, printed if all its files can be read. */
  method GenerateGiven(themes: seq<Theme>) returns (r: Option<Obj>)
    ensures r.Some? <==> Readable(themes)
    ensures r.Some? ==> r.value == MenuRoundTrip.Print(GivenTree(themes))
  {
    var root := new ToolMenu(APPEARANCE);
    var sub := root.GetOrCreateSubmenu(SYSTEM);
    var ok := AddAllToRoot(root, themes, [Keyed(SYSTEM, [])]);
    if !ok {
      return None;
    }
    TreeOfList(root, themes);
    var printed := root.CreateArray();
    return Some(printed);
  }

  method GenerateFound(system: seq<Theme>, user: seq<Theme>) returns (r: Option<Obj>)
    ensures r.Some? <==> Readable(system) && Readable(user)
    ensures r.Some? ==> r.value == MenuRoundTrip.Print(ThemesTree(system, user))
  {
    var root := new ToolMenu(APPEARANCE);
    var ok := AddThemes(root, SYSTEM, system, []);
    if !ok {
      return None;
    }
    assert [] + Listing(SYSTEM, system) == Listing(SYSTEM, system);
    ok := AddThemes(root, USER, user, Listing(SYSTEM, system));
    if !ok {
      return None;
    }
    TreeOfGroups(root, PlacedAll(Listing(SYSTEM, system) + Listing(USER, user)));
    var printed := root.CreateArray();
    return Some(printed);
  }

  /** The appearance menu: printed exactly when every theme file looked at can be read, each
      file once where it is listed. */
  method GenerateAppearance(given: Option<seq<Theme>>, system: seq<Theme>, user: seq<Theme>) returns (r: Option<Obj>)
    ensures given.None? ==> (r.Some? <==> Readable(system) && Readable(user))
    ensures given.None? && r.Some? ==> r.value == MenuRoundTrip.Print(ThemesTree(system, user))
    ensures given.Some? ==> (r.Some? <==> Readable(given.value))
    ensures given.Some? && r.Some? ==> r.value == MenuRoundTrip.Print(GivenTree(given.value))
  {
    if given.Some? {
      r := GenerateGiven(given.value);
    } else {
      r := GenerateFound(system, user);
    }
  }

  // ---------- What the compositor reads ----------

  /** The menu of one directory is always read back, in full. */
  lemma {:induction false} GivenReadsBack(env: RootMenu.Env, themes: seq<Theme>)
    requires LOAD_THEME in env.actions && Readable(themes)
    ensures var tree := GivenTree(themes);
            RootMenu.Populate(env, MenuRoundTrip.Print(tree)) ==
            RootMenu.Populated(MenuRoundTrip.ShownItems(env, tree), true)
  {
    var tree, entries := GivenTree(themes), Listed([Keyed(SYSTEM, [])], themes);
    ListedAreFirst([Keyed(SYSTEM, [])], themes);
    forall i | 0 <= i < |tree.items|
      ensures MenuRoundTrip.Accepted(env, tree.items[i])
    {
      assert i > 0 ==> FirstOfPath(entries[i], themes) && tree.items[i] == Entry(entries[i].args);
    }
    MenuRoundTrip.ToolOutputReadsBack(env, tree.title, tree.items);
  }

  /** So is the menu of system and user. */
  lemma {:induction false} ThemesReadBack(env: RootMenu.Env, system: seq<Theme>, user: seq<Theme>)
    requires LOAD_THEME in env.actions && Readable(system) && Readable(user)
    ensures var tree := ThemesTree(system, user);
            RootMenu.Populate(env, MenuRoundTrip.Print(tree)) ==
            RootMenu.Populated(MenuRoundTrip.ShownItems(env, tree), true)
  {
    var additions := Listing(SYSTEM, system) + Listing(USER, user);
    var groups, tree := PlacedAll(additions), ThemesTree(system, user);
    PlacedAllIs(additions);
    forall i | 0 <= i < |groups|
      ensures MenuRoundTrip.Accepted(env, tree.items[i])
    {
      LoadOnly(additions, Categories(additions)[i]);
      assert tree.items[i] == GroupTree(groups[i]);
    }
    CategoriesDistinct(additions);
    assert additions[0].category in Categories(additions);
    MenuRoundTrip.ToolOutputReadsBack(env, tree.title, tree.items);
  }

  ghost predicate LoadsTheme(e: Keyed) {
    |e.args| == 3 && e.args[1] == LOAD_THEME
  }

  lemma {:induction false} LoadOnly(additions: seq<Addition>, category: string)
    requires forall k :: 0 <= k < |additions| && additions[k].entry.Some? ==> LoadsTheme(additions[k].entry.value)
    ensures forall j :: 0 <= j < |EntriesOf(additions, category)| ==> LoadsTheme(EntriesOf(additions, category)[j])
  {
    if additions != [] {
      LoadOnly(additions[..|additions| - 1], category);
    }
  }
}
