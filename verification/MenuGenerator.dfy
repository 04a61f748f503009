/** How `wlmtool` builds its menus (`tool/menu.c`): each entry goes into the submenu of its
    category, which is created when it first comes up and then filled through the reference
    returned. */
module MenuGenerator {
  import opened MenuGroups
  import opened MenuTool
  import opened MenuTypes
  import opened Options
  import MenuRoundTrip
  import RootMenu

  // ---------- Menu objects and groups ----------

  predicate EntriesMatch(items: seq<Item>, entries: seq<Keyed>) {
    && |items| == |entries|
    && forall j :: 0 <= j < |items| ==> items[j] == EntryItem(entries[j].key, entries[j].args)
  }

  /** The item is the submenu of the group. */
  ghost predicate IsGroup(item: Item, g: Group)
    reads if item.SubItem? then {item.menu} else {}
  {
    item.SubItem? && item.menu.title == g.title && EntriesMatch(item.menu.items, g.entries)
  }

  /** The menu's items are the submenus of the groups. */
  ghost predicate Matches(root: ToolMenu, groups: seq<Group>)
    requires root.Valid()
    reads root, root.Repr
  {
    && |root.items| == |groups|
    && forall i :: 0 <= i < |groups| ==> Submenu(root, i) && IsGroup(root.items[i], groups[i])
  }

  ghost predicate Submenu(root: ToolMenu, i: nat)
    reads root
  {
    i < |root.items| && root.items[i].SubItem? && root.items[i].menu in root.Repr
  }

  /** A group's submenu has a key in its index exactly when the group has it. */
  lemma KeyTakenIff(index: map<string, Item>, items: seq<Item>, entries: seq<Keyed>, key: string)
    requires Indexed(index, items) && EntriesMatch(items, entries)
    ensures key in index <==> HasKey(entries, key)
  {
    if key in index {
      var j :| 0 <= j < |items| && items[j] == index[key];
      assert entries[j].key == key;
    }
    if HasKey(entries, key) {
      var j :| 0 <= j < |entries| && entries[j].key == key;
      assert items[j].Key() == key;
    }
  }

  /** A category has a submenu exactly when it has a group, at the same position. */
  lemma CategoryTakenIff(root: ToolMenu, groups: seq<Group>, category: string)
    requires root.Valid() && Matches(root, groups)
    ensures category in root.index <==> Position(groups, category) < |groups|
    ensures category in root.index ==> root.index[category] == root.items[Position(groups, category)]
  {
    var p := Position(groups, category);
    assert forall i :: 0 <= i < |groups| ==> root.items[i].Key() == groups[i].title;
    if category in root.index {
      var i :| 0 <= i < |root.items| && root.items[i] == root.index[category];
      assert groups[i].title == category;
    }
  }

  // ---------- One addition ----------

  /** Finds or makes the submenu of a category. */
  method EnsureGroup(root: ToolMenu, category: string, ghost groups: seq<Group>) returns (sub: ToolMenu)
    requires root.Valid() && Matches(root, groups)
    modifies root
    ensures root.Valid() && fresh(root.Repr - old(root.Repr))
    ensures Matches(root, WithGroup(groups, category))
    ensures root.items[Position(groups, category)] == SubItem(sub)
  {
    CategoryTakenIff(root, groups, category);
    var found := root.GetOrCreateSubmenu(category);
    sub := found.menu;
    ghost var after := WithGroup(groups, category);
    forall i | 0 <= i < |after|
      ensures Submenu(root, i) && IsGroup(root.items[i], after[i])
    {
      if i < |groups| {
        assert old(Submenu(root, i) && IsGroup(root.items[i], groups[i]));
      }
    }
  }

  /** Adds an entry to the submenu at position `i`, through a reference to it; it is refused if
      its key is taken there.  The whole tree stays valid. */
  method FileEntry(root: ToolMenu, sub: ToolMenu, key: string, args: seq<string>,
                   ghost groups: seq<Group>, ghost i: nat)
      returns (ok: bool)
    requires root.Valid() && Matches(root, groups)
    requires i < |root.items| && root.items[i] == SubItem(sub)
    modifies sub
    ensures root.Valid() && root.Repr == old(root.Repr)
    ensures Matches(root, FiledAt(groups, i, Keyed(key, args)))
    ensures ok <==> !HasKey(groups[i].entries, key)
  {
    assert root.Holds(sub) && Submenu(root, i) && IsGroup(root.items[i], groups[i]);
    assert sub.Valid() && Indexed(sub.index, sub.items);
    KeyTakenIff(sub.index, sub.items, groups[i].entries, key);
    ok := sub.AddItem(EntryItem(key, args));
    root.OneChanged(i);
    ghost var after := FiledAt(groups, i, Keyed(key, args));
    forall j | 0 <= j < |after|
      ensures Submenu(root, j) && IsGroup(root.items[j], after[j])
    {
      assert old(Submenu(root, j) && IsGroup(root.items[j], groups[j]));
    }
  }

  method Place(root: ToolMenu, a: Addition, ghost groups: seq<Group>) returns (ok: bool)
    requires root.Valid() && Matches(root, groups)
    modifies root.Repr
    ensures root.Valid() && fresh(root.Repr - old(root.Repr))
    ensures Matches(root, Placed(groups, a))
    ensures a.entry.Some? ==>
      (ok <==> !HasKey(WithGroup(groups, a.category)[Position(groups, a.category)].entries, a.entry.value.key))
  {
    var sub := EnsureGroup(root, a.category, groups);
    ok := true;
    if a.entry.Some? {
      ok := FileEntry(root, sub, a.entry.value.key, a.entry.value.args, WithGroup(groups, a.category),
                      Position(groups, a.category));
    }
  }

  // ---------- Whole runs ----------

  /** From an empty menu, any additions leave a valid tree: in every menu of it, index and list
      agree.  It is the tree of the groups the additions make. */
  method PlaceEach(title: string, additions: seq<Addition>) returns (root: ToolMenu)
    ensures fresh(root) && root.Valid() && fresh(root.Repr)
    ensures Matches(root, PlacedAll(additions))
    ensures root.Tree() == GroupsTree(title, PlacedAll(additions))
  {
    root := new ToolMenu(title);
    assert additions[..0] == [];
    for i := 0 to |additions|
      invariant fresh(root) && root.Valid() && fresh(root.Repr) && root.title == title
      invariant Matches(root, PlacedAll(additions[..i]))
    {
      assert additions[..i + 1][..i] == additions[..i];
      var ok := Place(root, additions[i], PlacedAll(additions[..i]));
    }
    assert additions[..|additions|] == additions;
    TreeOfGroups(root, PlacedAll(additions));
  }

  lemma EntriesTree(menu: ToolMenu, g: Group)
    requires menu.Valid() && menu.title == g.title && EntriesMatch(menu.items, g.entries)
    ensures Menu(menu.title, menu.Trees(|menu.items|)) == GroupTree(g)
  {
    var trees := menu.Trees(|menu.items|);
    assert forall j :: 0 <= j < |trees| ==> trees[j] == menu.TreeAt(j) == Entry(g.entries[j].args);
    assert trees == GroupTree(g).items;
  }

  lemma TreeOfGroups(root: ToolMenu, groups: seq<Group>)
    requires root.Valid() && Matches(root, groups)
    ensures root.Tree() == GroupsTree(root.title, groups)
  {
    var trees := root.Trees(|root.items|);
    forall i | 0 <= i < |groups|
      ensures trees[i] == GroupTree(groups[i])
    {
      assert trees[i] == root.TreeAt(i) && Submenu(root, i) && IsGroup(root.items[i], groups[i]);
      assert root.Holds(root.items[i].menu);
      EntriesTree(root.items[i].menu, groups[i]);
    }
    assert trees == GroupsTree(root.title, groups).items;
  }

  // ---------- The menus of the tool ----------

  /** Files an application into its category's submenu. */
  method FileApplication(root: ToolMenu, sub: ToolMenu, f: DesktopFile, ghost before: seq<Addition>) returns (ok: bool)
    requires f.Application? && f.Usable() && NoDuplicates(before)
    requires root.Valid() && Matches(root, WithGroup(PlacedAll(before), f.category))
    requires root.items[Position(PlacedAll(before), f.category)] == SubItem(sub)
    modifies sub
    ensures root.Valid() && root.Repr == old(root.Repr)
    ensures ok <==> NoDuplicates(before + [f.Filing()])
    ensures Matches(root, PlacedAll(before + [f.Filing()]))
  {
    var item := EntryCreate(f.path, [f.name.value, SHELL_EXECUTE, f.Command()]);
    ghost var groups, p := WithGroup(PlacedAll(before), f.category), Position(PlacedAll(before), f.category);
    ok := FileEntry(root, sub, f.path, item.value.args, groups, p);
    FilingIsNew(before, f);
    assert (before + [f.Filing()])[..|before|] == before;
  }

  /** Files one more desktop file. */
  method AddDesktopFile(root: ToolMenu, f: DesktopFile, ghost before: seq<Addition>) returns (ok: bool)
    requires root.Valid() && Matches(root, PlacedAll(before)) && NoDuplicates(before)
    modifies root.Repr
    ensures root.Valid() && fresh(root.Repr - old(root.Repr))
    ensures ok <==> f.Usable() && NoDuplicates(before + f.Filings())
    ensures ok ==> Matches(root, PlacedAll(before + f.Filings()))
  {
    if f.Unreadable? {
      return false;
    }
    if f.NotShown? {
      assert before + f.Filings() == before;
      return true;
    }
    var sub := EnsureGroup(root, f.category, PlacedAll(before));
    if f.exec.None? && f.tryExec.None? {
      return false;
    }
    if f.name.None? {
      return false;
    }
    ok := FileApplication(root, sub, f, before);
  }

  lemma FilingIsNew(before: seq<Addition>, f: DesktopFile)
    requires NoDuplicates(before) && f.Application? && f.Usable()
    ensures NoDuplicates(before + [f.Filing()]) <==>
            var groups := PlacedAll(before);
            !HasKey(WithGroup(groups, f.category)[Position(groups, f.category)].entries, f.path)
  {
    var groups := PlacedAll(before);
    PlacedAllIs(before);
    NewKeyIff(before, f.category, f.Filing().entry.value);
    if Position(groups, f.category) == |groups| {
      MissingCategory(before, f.category);
    }
  }

  lemma MissingCategory(before: seq<Addition>, category: string)
    requires Position(PlacedAll(before), category) == |PlacedAll(before)|
    ensures EntriesOf(before, category) == []
  {
    PlacedAllIs(before);
    assert forall i :: 0 <= i < |Categories(before)| ==> Categories(before)[i] == PlacedAll(before)[i].title;
    NoEntriesYet(before, category);
  }

  /** Files all desktop files into an empty menu, up to the first that cannot be. */
  method AddDesktopFiles(root: ToolMenu, files: seq<DesktopFile>) returns (ok: bool)
    requires root.Valid() && root.items == []
    modifies root.Repr
    ensures root.Valid() && fresh(root.Repr - old(root.Repr))
    ensures ok <==> Makeable(files)
    ensures ok ==> Matches(root, PlacedAll(Filings(files)))
  {
    assert files[..0] == [];
    for i := 0 to |files|
      invariant root.Valid() && fresh(root.Repr - old(root.Repr))
      invariant Makeable(files[..i])
      invariant Matches(root, PlacedAll(Filings(files[..i])))
    {
      MakeableStep(files, i);
      ok := AddDesktopFile(root, files[i], Filings(files[..i]));
      if !ok {
        if Makeable(files) {
          MakeablePrefix(files, i + 1);
        }
        return false;
      }
    }
    assert files[..|files|] == files;
    return true;
  }

  /** The applications menu: it is printed exactly when every desktop file is usable and none
      comes twice in its category, and then has one submenu per category, sorted. */
  method GenerateApplications(files: seq<DesktopFile>) returns (r: Option<Obj>)
    ensures r.Some? <==> Makeable(files)
    ensures r.Some? ==> r.value == MenuRoundTrip.Print(GroupsTree("Applications", PlacedAll(Filings(files))))
  {
    var root := new ToolMenu("Applications");
    var ok := AddDesktopFiles(root, files);
    if !ok {
      return None;
    }
    TreeOfGroups(root, PlacedAll(Filings(files)));
    var printed := root.CreateArray();
    return Some(printed);
  }

  /** What the applications menu looks like when the compositor reads it: it is accepted exactly
      when there is an application, and shows all of them. */
  lemma {:induction false} ApplicationsReadBack(env: RootMenu.Env, files: seq<DesktopFile>)
    requires SHELL_EXECUTE in env.actions && Makeable(files)
    ensures var tree := GroupsTree("Applications", PlacedAll(Filings(files)));
            var read := RootMenu.Populate(env, MenuRoundTrip.Print(tree));
            && (read.ok <==> Filings(files) != [])
            && (read.ok ==> read.items == MenuRoundTrip.ShownItems(env, tree))
  {
    var groups := PlacedAll(Filings(files));
    var tree := GroupsTree("Applications", groups);
    MenuRoundTrip.ToolOutputReadsBack(env, "Applications", tree.items);
    ApplicationsAccepted(env, files, groups);
    CategoriesDistinct(Filings(files));
  }

  lemma {:induction false} ApplicationsAccepted(env: RootMenu.Env, files: seq<DesktopFile>, groups: seq<Group>)
    requires SHELL_EXECUTE in env.actions && AllUsable(files) && groups == PlacedAll(Filings(files))
    ensures MenuRoundTrip.Accepted(env, GroupsTree("Applications", groups))
    ensures |groups| == |Categories(Filings(files))|
  {
    PlacedAllIs(Filings(files));
    forall i | 0 <= i < |groups|
      ensures MenuRoundTrip.Accepted(env, GroupTree(groups[i]))
    {
      ExecuteOnly(files, Categories(Filings(files))[i]);
    }
  }

  /** Every entry filed executes something. */
  lemma {:induction false} ExecuteOnly(files: seq<DesktopFile>, category: string)
    requires AllUsable(files)
    ensures forall j :: 0 <= j < |EntriesOf(Filings(files), category)| ==>
              var args := EntriesOf(Filings(files), category)[j].args;
              |args| == 3 && args[1] == SHELL_EXECUTE
  {
    if files != [] {
      var before, f := files[..|files| - 1], files[|files| - 1];
      ExecuteOnly(before, category);
      if f.Application? {
        assert Filings(files)[..|Filings(before)|] == Filings(before);
      } else {
        assert Filings(files) == Filings(before);
      }
    }
  }
}
