/** The two-level menus that `wlmtool` generates: entries filed under categories
    (`tool/menu.c`). */
module MenuGroups {
  import opened MenuTypes
  import opened Options

  /** An entry with the key that tells it from others of its menu. */
  datatype Keyed = Keyed(key: string, args: seq<string>)

  /** A category's submenu. */
  datatype Group = Group(title: string, entries: seq<Keyed>)

  /** A category to be there, and an entry to be filed under it. */
  datatype Addition = Addition(category: string, entry: Option<Keyed>)

  // ---------- Filing one by one ----------

  /** Position of a category, or the number of groups. */
  function Position(groups: seq<Group>, title: string): (i: nat)
    ensures i <= |groups|
    ensures i < |groups| ==> groups[i].title == title
    ensures forall j :: 0 <= j < i ==> groups[j].title != title
  {
    if groups == [] || groups[0].title == title then 0 else 1 + Position(groups[1..], title)
  }

  predicate HasKey(entries: seq<Keyed>, key: string) {
    exists j :: 0 <= j < |entries| && entries[j].key == key
  }

  function WithGroup(groups: seq<Group>, title: string): (r: seq<Group>)
    ensures Position(groups, title) < |r| && r[Position(groups, title)].title == title
  {
    if Position(groups, title) < |groups| then groups else groups + [Group(title, [])]
  }

  /** A key already taken in the group leaves it as it is. */
  function Filed(entries: seq<Keyed>, e: Keyed): seq<Keyed> {
    if HasKey(entries, e.key) then entries else entries + [e]
  }

  function FiledAt(groups: seq<Group>, i: nat, e: Keyed): (r: seq<Group>)
    requires i < |groups|
    ensures |r| == |groups|
  {
    groups[i := groups[i].(entries := Filed(groups[i].entries, e))]
  }

  function Placed(groups: seq<Group>, a: Addition): seq<Group> {
    var r := WithGroup(groups, a.category);
    match a.entry
    case None => r
    case Some(e) => FiledAt(r, Position(groups, a.category), e)
  }

  function PlacedAll(additions: seq<Addition>): seq<Group> {
    if additions == [] then []
    else Placed(PlacedAll(additions[..|additions| - 1]), additions[|additions| - 1])
  }

  /** The menu tree of the groups. */
  function GroupTree(g: Group): Tree {
    Menu(g.title, seq(|g.entries|, j requires 0 <= j < |g.entries| => Entry(g.entries[j].args)))
  }

  function GroupsTree(title: string, groups: seq<Group>): Tree {
    Menu(title, seq(|groups|, i requires 0 <= i < |groups| => GroupTree(groups[i])))
  }

  // ---------- What the result is, category by category ----------

  /** The categories, in order of first appearance. */
  function Categories(additions: seq<Addition>): seq<string> {
    if additions == [] then []
    else
      var earlier, c := Categories(additions[..|additions| - 1]), additions[|additions| - 1].category;
      if c in earlier then earlier else earlier + [c]
  }

  /** The entries of one category: those with keys not seen in it before, in order. */
  function EntriesOf(additions: seq<Addition>, category: string): seq<Keyed> {
    if additions == [] then []
    else
      var earlier, a := EntriesOf(additions[..|additions| - 1], category), additions[|additions| - 1];
      if a.category == category && a.entry.Some? then Filed(earlier, a.entry.value) else earlier
  }

  /** Titles and entries of the groups. */
  ghost predicate GroupsAre(groups: seq<Group>, additions: seq<Addition>) {
    && |groups| == |Categories(additions)|
    && forall i :: 0 <= i < |groups| ==>
         groups[i] == Group(Categories(additions)[i], EntriesOf(additions, Categories(additions)[i]))
  }

  ghost predicate Distinct(titles: seq<string>) {
    forall i, j :: 0 <= i < j < |titles| ==> titles[i] != titles[j]
  }

  lemma DistinctAppend(titles: seq<string>, title: string)
    requires Distinct(titles)
    ensures title !in titles ==> Distinct(titles + [title])
  {
  }

  lemma {:induction false} CategoriesDistinct(additions: seq<Addition>)
    ensures Distinct(Categories(additions))
    ensures forall k :: 0 <= k < |additions| ==> additions[k].category in Categories(additions)
  {
    if additions != [] {
      var before := additions[..|additions| - 1];
      CategoriesDistinct(before);
      DistinctAppend(Categories(before), additions[|additions| - 1].category);
      forall k | 0 <= k < |additions|
        ensures additions[k].category in Categories(additions)
      {
        if k < |before| {
          assert before[k].category in Categories(before);
        }
      }
    }
  }

  /** A category not seen yet has no entries. */
  lemma {:induction false} NoEntriesYet(additions: seq<Addition>, category: string)
    requires category !in Categories(additions)
    ensures EntriesOf(additions, category) == []
  {
    if additions != [] {
      NoEntriesYet(additions[..|additions| - 1], category);
    }
  }

  /** One more addition, to its own group and to the others. */
  lemma {:induction false} PlacedGroup(groups: seq<Group>, before: seq<Addition>, additions: seq<Addition>, i: nat)
    requires additions != [] && before == additions[..|additions| - 1]
    requires GroupsAre(groups, before)
    requires var a := additions[|additions| - 1]; i < |Placed(groups, a)|
    ensures var a := additions[|additions| - 1];
            && |Placed(groups, a)| == |Categories(additions)|
            && Placed(groups, a)[i] == Group(Categories(additions)[i], EntriesOf(additions, Categories(additions)[i]))
  {
    var a := additions[|additions| - 1];
    var cs, p := Categories(before), Position(groups, a.category);
    CategoriesDistinct(before);
    assert a.category in cs <==> p < |groups| by {
      if a.category in cs {
        var k :| 0 <= k < |cs| && cs[k] == a.category;
        assert groups[k].title == a.category;
      }
    }
    if p == |groups| {
      NoEntriesYet(before, a.category);
    }
    if i < |groups| {
      assert groups[i] == Group(cs[i], EntriesOf(before, cs[i]));
      assert i != p ==> cs[i] != a.category;
    }
  }

  /** Filing the additions one by one gives one group per category, in order of first
      appearance, with exactly that category's entries in order, the first of each key. */
  lemma {:induction false} PlacedAllIs(additions: seq<Addition>)
    ensures GroupsAre(PlacedAll(additions), additions)
  {
    if additions != [] {
      var before, a := additions[..|additions| - 1], additions[|additions| - 1];
      PlacedAllIs(before);
      forall i | 0 <= i < |PlacedAll(additions)|
        ensures PlacedAll(additions)[i] ==
                Group(Categories(additions)[i], EntriesOf(additions, Categories(additions)[i]))
      {
        PlacedGroup(PlacedAll(before), before, additions, i);
      }
      PlacedGroup(PlacedAll(before), before, additions, Position(PlacedAll(before), a.category));
    }
  }

  // ---------- Keys ----------

  /** Addition `k` files an entry of that key under that category. */
  predicate Files(a: Addition, category: string, key: string) {
    a.category == category && a.entry.Some? && a.entry.value.key == key
  }

  /** A key is in a category exactly when an addition put it there. */
  lemma {:induction false} KeyIff(additions: seq<Addition>, category: string, key: string)
    ensures HasKey(EntriesOf(additions, category), key) <==>
            exists k :: 0 <= k < |additions| && Files(additions[k], category, key)
  {
    if additions != [] {
      var before, a := additions[..|additions| - 1], additions[|additions| - 1];
      KeyIff(before, category, key);
      assert forall k :: 0 <= k < |before| ==> before[k] == additions[k];
      if a.category == category && a.entry.Some? {
        FiledKey(EntriesOf(before, category), a.entry.value, key);
      }
    }
  }

  lemma FiledKey(entries: seq<Keyed>, e: Keyed, key: string)
    ensures HasKey(Filed(entries, e), key) <==> HasKey(entries, key) || e.key == key
  {
    var r := Filed(entries, e);
    if HasKey(entries, key) {
      var j :| 0 <= j < |entries| && entries[j].key == key;
      assert r[j].key == key;
    } else if e.key == key {
      assert r[|entries|].key == key;
    }
  }

  /** No two additions file the same key under the same category. */
  ghost predicate NoDuplicates(additions: seq<Addition>) {
    forall m, n :: 0 <= m < n < |additions| && additions[m].entry.Some? && additions[n].entry.Some? ==>
      !(additions[m].category == additions[n].category && additions[m].entry.value.key == additions[n].entry.value.key)
  }

  /** One more addition repeats a key exactly when its group has it. */
  lemma {:induction false} NewKeyIff(before: seq<Addition>, category: string, e: Keyed)
    requires NoDuplicates(before)
    ensures NoDuplicates(before + [Addition(category, Some(e))]) <==> !HasKey(EntriesOf(before, category), e.key)
  {
    var after := before + [Addition(category, Some(e))];
    KeyIff(before, category, e.key);
    if HasKey(EntriesOf(before, category), e.key) {
      var k :| 0 <= k < |before| && Files(before[k], category, e.key);
      assert after[k] == before[k] && after[|before|] == Addition(category, Some(e));
    }
  }

  // ---------- The applications menu ----------

  const TERMINAL := "/usr/bin/foot"
  const SHELL_EXECUTE := "ShellExecute"

  /** What the parser makes of a desktop file: an error, an entry not meant for a menu, or an
      application with the category looked up for it. */
  datatype DesktopFile =
    | Unreadable
    | NotShown
    | Application(path: string, category: string, name: Option<string>, exec: Option<string>,
                  tryExec: Option<string>, terminal: bool)
  {
    /** An application must have a name and something to execute. */
    predicate Usable() {
      NotShown? || (Application? && name.Some? && (exec.Some? || tryExec.Some?))
    }

    function Command(): string
      requires Application? && (exec.Some? || tryExec.Some?)
    {
      var command := if tryExec.Some? then tryExec.value else exec.value;
      if terminal then TERMINAL + " " + command else command
    }

    function Filing(): Addition
      requires Application? && Usable()
    {
      Addition(category, Some(Keyed(path, [name.value, SHELL_EXECUTE, Command()])))
    }

    function Filings(): seq<Addition>
      requires Usable()
    {
      if Application? then [Filing()] else []
    }
  }

  ghost predicate AllUsable(files: seq<DesktopFile>) {
    forall i :: 0 <= i < |files| ==> files[i].Usable()
  }

  /** The applications to be filed. */
  function Filings(files: seq<DesktopFile>): seq<Addition>
    requires forall i :: 0 <= i < |files| ==> files[i].Usable()
  {
    if files == [] then []
    else Filings(files[..|files| - 1]) + files[|files| - 1].Filings()
  }

  /** The menu can be made: every file is usable, and no path comes twice in a category. */
  ghost predicate Makeable(files: seq<DesktopFile>) {
    AllUsable(files) && NoDuplicates(Filings(files))
  }

  lemma {:induction false} MakeableStep(files: seq<DesktopFile>, i: nat)
    requires i < |files| && Makeable(files[..i])
    ensures Makeable(files[..i + 1]) <==>
            files[i].Usable() && NoDuplicates(Filings(files[..i]) + files[i].Filings())
    ensures Makeable(files[..i + 1]) ==> Filings(files[..i + 1]) == Filings(files[..i]) + files[i].Filings()
  {
    assert files[..i + 1][..i] == files[..i] && files[..i + 1][i] == files[i];
    if files[i].Usable() {
      assert AllUsable(files[..i + 1]);
    }
  }

  lemma {:induction false} MakeablePrefix(files: seq<DesktopFile>, n: nat)
    requires n <= |files| && Makeable(files)
    ensures Makeable(files[..n])
    decreases |files|
  {
    if n < |files| {
      var before := files[..|files| - 1];
      if files[|files| - 1].Application? {
        NoDuplicatesPrefix(Filings(before), files[|files| - 1].Filing());
      } else {
        assert Filings(files) == Filings(before);
      }
      MakeablePrefix(before, n);
      assert before[..n] == files[..n];
    } else {
      assert files[..n] == files;
    }
  }

  lemma NoDuplicatesPrefix(before: seq<Addition>, a: Addition)
    requires NoDuplicates(before + [a])
    ensures NoDuplicates(before)
  {
    forall m, n | 0 <= m < n < |before| && before[m].entry.Some? && before[n].entry.Some?
      ensures !(before[m].category == before[n].category && before[m].entry.value.key == before[n].entry.value.key)
    {
      assert (before + [a])[m] == before[m] && (before + [a])[n] == before[n];
    }
  }
}
