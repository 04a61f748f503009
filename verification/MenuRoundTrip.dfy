/** Printing a menu tree (`tool/item.c`) and reading it back (`src/root_menu.c`). */
module MenuRoundTrip {
  import opened MenuTypes
  import opened Options
  import opened RootMenu

  /** The nested array for a menu tree: an entry's words, or a menu's title followed by its
      items in stable title order. */
  function Print(t: Tree): (o: Obj)
    ensures o.Arr?
    decreases t, 1
  {
    match t
    case Entry(args) => Arr(seq(|args|, i requires 0 <= i < |args| => Str(args[i])))
    case Menu(title, items) => PrintBy(t, Order(Titles(items), |items|))
  }

  /** A menu printed with its items in the given order. */
  function PrintBy(t: Tree, perm: seq<nat>): (o: Obj)
    requires t.Menu? && forall i :: 0 <= i < |perm| ==> perm[i] < |t.items|
    ensures o.Arr? && |o.items| == |perm| + 1 && o.items[0] == Str(t.title)
    decreases t, 0
  {
    Arr([Str(t.title)] + seq(|perm|, i requires 0 <= i < |perm| => Print(t.items[perm[i]])))
  }

  lemma PrintByAt(t: Tree, perm: seq<nat>, i: nat)
    requires t.Menu? && (forall j :: 0 <= j < |perm| ==> perm[j] < |t.items|) && i < |perm|
    ensures PrintBy(t, perm).items[i + 1] == Print(t.items[perm[i]])
  {
  }

  /** The item a tree should appear as: same titles, actions and nesting, items sorted by
      title at each level; an empty menu, like an entry without action, is disabled. */
  function Shown(env: Env, t: Tree): Item
    decreases t
  {
    match t
    case Entry(args) =>
      if |args| <= 1 then Disabled(t.Title())
      else if args[1] in env.actions then
        Action(t.Title(), env.actions[args[1]], if |args| > 2 then Some(args[2]) else None)
      else Submenu(t.Title(), env.external(args[1], if |args| > 2 then Some(args[2]) else None).items)
    case Menu(title, items) =>
      if items == [] then Disabled(title) else Submenu(title, ShownItems(env, t))
  }

  function ShownItems(env: Env, t: Tree): (r: seq<Item>)
    requires t.Menu?
    ensures |r| == |t.items|
    decreases t, 0
  {
    var perm := Order(Titles(t.items), |t.items|);
    seq(|t.items|, i requires 0 <= i < |t.items| => Shown(env, t.items[perm[i]]))
  }

  /** Whether an entry can be read back: it has no action, a known one, or is a statement
      whose menu can be pulled in. */
  predicate AcceptedEntry(env: Env, args: seq<string>) {
    && |args| >= 1
    && (|| |args| == 1
        || args[1] in env.actions
        || (&& |args| >= 3
            && (args[1] == INCLUDE_STATEMENT || args[1] == GENERATE_STATEMENT)
            && env.external(args[1], Some(args[2])).ok))
  }

  predicate Accepted(env: Env, t: Tree)
    decreases t
  {
    match t
    case Entry(args) => AcceptedEntry(env, args)
    case Menu(_, items) => forall i :: 0 <= i < |items| ==> Accepted(env, items[i])
  }

  /** What reading back a printed tree must give. */
  ghost predicate ReadsBack(env: Env, t: Tree) {
    && (CreateItem(env, Print(t)).Some? <==> Accepted(env, t))
    && (Accepted(env, t) ==> CreateItem(env, Print(t)) == Some(Shown(env, t)))
  }

  lemma EntryReadsBack(env: Env, args: seq<string>)
    ensures ReadsBack(env, Entry(args))
  {
    var o := Print(Entry(args));
    assert |o.items| == |args| && forall i :: 0 <= i < |args| ==> o.items[i] == Str(args[i]);
  }

  /** Element `i + 1` of a printed menu is the printed `i`-th item in title order. */
  lemma PrintedElement(title: string, items: seq<Tree>, i: nat)
    requires i < |items|
    ensures |Print(Menu(title, items)).items| == |items| + 1
    ensures Print(Menu(title, items)).items[0] == Str(title)
    ensures Print(Menu(title, items)).items[i + 1] == Print(Sorted(items)[i])
  {
  }

  /** Reading element `i + 1` succeeds exactly when that item is accepted, even where the
      array is empty. */
  lemma ElementReadsBack(env: Env, title: string, items: seq<Tree>, i: nat)
    requires i < |items| && ReadsBack(env, Sorted(items)[i])
    ensures var o, t := Print(Menu(title, items)), Sorted(items)[i];
            && i + 1 < |o.items|
            && (ElementItem(env, o, i + 1).Some? <==> Accepted(env, t))
            && (Accepted(env, t) ==> ElementItem(env, o, i + 1) == Some(Shown(env, t)))
  {
    PrintedElement(title, items, i);
    assert Print(Menu(title, items)).items[i + 1] == Print(Sorted(items)[i]);
  }

  /** Element `j + 1` reads as item `shown[j]`, or not at all when `fine[j]` is false. */
  ghost predicate ElementReads(env: Env, o: Obj, fine: seq<bool>, shown: seq<Item>, j: nat)
    requires o.Arr? && |o.items| == |fine| + 1 == |shown| + 1 && j < |fine|
  {
    && (ElementItem(env, o, j + 1).Some? <==> fine[j])
    && (fine[j] ==> ElementItem(env, o, j + 1) == Some(shown[j]))
  }

  /** Reading the elements one by one: all or up to the first bad one. */
  lemma {:induction false} PopulateReads(env: Env, o: Obj, fine: seq<bool>, shown: seq<Item>, i: nat)
    requires o.Arr? && |o.items| == |fine| + 1 == |shown| + 1 && i <= |fine|
    requires forall j :: 0 <= j < |fine| ==> ElementReads(env, o, fine, shown, j)
    ensures var r := PopulateFrom(env, o, i + 1);
            && (r.ok <==> forall j :: i <= j < |fine| ==> fine[j])
            && (r.ok ==> r.items == shown[i..])
    decreases |fine| - i
  {
    if i < |fine| {
      assert ElementReads(env, o, fine, shown, i);
      PopulateReads(env, o, fine, shown, i + 1);
      assert shown[i..] == [shown[i]] + shown[i + 1..];
    }
  }

  /** Which of the sorted items are accepted. */
  function Fine(env: Env, items: seq<Tree>): (fine: seq<bool>)
    ensures |fine| == |items|
    ensures forall j :: 0 <= j < |items| ==> fine[j] == Accepted(env, Sorted(items)[j])
  {
    var sorted := Sorted(items);
    seq(|items|, j requires 0 <= j < |items| => Accepted(env, sorted[j]))
  }

  /** Sorting keeps exactly the same items, so acceptance does not depend on the order. */
  lemma FineIff(env: Env, items: seq<Tree>)
    ensures (forall j :: 0 <= j < |items| ==> Fine(env, items)[j])
            <==> forall i :: 0 <= i < |items| ==> Accepted(env, items[i])
  {
    var perm := Order(Titles(items), |items|);
    OrderIsStable(Titles(items), |items|);
    var fine := Fine(env, items);
    assert forall j :: 0 <= j < |items| ==> fine[j] == Accepted(env, items[perm[j]]);
    if forall j :: 0 <= j < |items| ==> fine[j] {
      forall i | 0 <= i < |items|
        ensures Accepted(env, items[i])
      {
        assert i in perm;
        var j :| 0 <= j < |perm| && perm[j] == i;
        assert fine[j];
      }
    }
  }

  lemma {:induction false} MenuElementsRead(env: Env, title: string, items: seq<Tree>, j: nat)
    requires j < |items|
    requires forall i :: 0 <= i < |items| ==> ReadsBack(env, items[i])
    ensures var o, shown := Print(Menu(title, items)), ShownItems(env, Menu(title, items));
            |o.items| == |items| + 1 && ElementReads(env, o, Fine(env, items), shown, j)
  {
    PrintedElement(title, items, j);
    assert Sorted(items)[j] in items;
    ElementReadsBack(env, title, items, j);
    assert ShownItems(env, Menu(title, items))[j] == Shown(env, Sorted(items)[j]);
  }

  /** Reading a printed menu into an existing menu object: it succeeds exactly for a non-empty
      menu of accepted items. */
  lemma RootReadsBack(env: Env, title: string, items: seq<Tree>)
    requires forall i :: 0 <= i < |items| ==> ReadsBack(env, items[i])
    ensures var r := Populate(env, Print(Menu(title, items)));
            && (r.ok <==> items != [] && Accepted(env, Menu(title, items)))
            && (r.ok ==> r.items == ShownItems(env, Menu(title, items)))
  {
    var o, shown, fine := Print(Menu(title, items)), ShownItems(env, Menu(title, items)), Fine(env, items);
    assert |o.items| == |items| + 1 && StringAt(o, 0) == Some(title);
    if items != [] {
      forall j | 0 <= j < |items|
        ensures ElementReads(env, o, fine, shown, j)
      {
        MenuElementsRead(env, title, items, j);
      }
      PopulateReads(env, o, fine, shown, 0);
      FineIff(env, items);
      assert shown[0..] == shown;
    }
  }

  lemma MenuReadsBack(env: Env, title: string, items: seq<Tree>)
    requires forall i :: 0 <= i < |items| ==> ReadsBack(env, items[i])
    ensures ReadsBack(env, Menu(title, items))
  {
    var o := Print(Menu(title, items));
    if items == [] {
      assert o.items == [Str(title)];
    } else {
      RootReadsBack(env, title, items);
      PrintedElement(title, items, 0);
      assert StringAt(o, 0) == Some(title) && StringAt(o, 1) == None;
      assert InitMenu(env, o) == Populate(env, o);
    }
  }

  /** The round trip: a printed tree can be read back exactly when every entry in it is
      accepted, and it then comes back as the same tree with each level sorted by title. */
  lemma {:induction false} RoundTrip(env: Env, t: Tree)
    ensures CreateItem(env, Print(t)).Some? <==> Accepted(env, t)
    ensures Accepted(env, t) ==> CreateItem(env, Print(t)) == Some(Shown(env, t))
    decreases t
  {
    match t
    case Entry(args) =>
      EntryReadsBack(env, args);
      assert ReadsBack(env, t);
    case Menu(title, items) =>
      forall i | 0 <= i < |items|
        ensures ReadsBack(env, items[i])
      {
        RoundTrip(env, items[i]);
      }
      MenuReadsBack(env, title, items);
      assert ReadsBack(env, t);
  }

  /** The same for the tool's whole output, which the generator reads into the menu that
      requested it: an empty menu is an error there. */
  lemma ToolOutputReadsBack(env: Env, title: string, items: seq<Tree>)
    ensures var r := Populate(env, Print(Menu(title, items)));
            && (r.ok <==> items != [] && Accepted(env, Menu(title, items)))
            && (r.ok ==> r.items == ShownItems(env, Menu(title, items)))
  {
    forall i | 0 <= i < |items|
      ensures ReadsBack(env, items[i])
    {
      RoundTrip(env, items[i]);
    }
    RootReadsBack(env, title, items);
  }

  lemma ShownTitle(env: Env, t: Tree)
    ensures Shown(env, t).title == t.Title()
  {
  }

  /** The items on screen are in title order, and are exactly the tree's items, each as often
      as it is there. */
  lemma {:induction false} ShownSorted(env: Env, t: Tree)
    requires t.Menu?
    ensures var shown := ShownItems(env, t);
            && (forall i, j :: 0 <= i < j < |shown| ==> !Before(shown[j].title, shown[i].title))
            && multiset(shown) == multiset(seq(|t.items|, i requires 0 <= i < |t.items| => Shown(env, t.items[i])))
  {
    var titles, n := Titles(t.items), |t.items|;
    var perm := Order(titles, n);
    var shown, each := ShownItems(env, t), seq(n, i requires 0 <= i < n => Shown(env, t.items[i]));
    OrderIsStable(titles, n);
    forall i, j | 0 <= i < j < |shown|
      ensures !Before(shown[j].title, shown[i].title)
    {
      ShownTitle(env, t.items[perm[i]]);
      ShownTitle(env, t.items[perm[j]]);
      BeforeTotal(shown[i].title, shown[j].title);
    }
    OrderKeepsAll(titles, each, n);
    assert shown == Permute(each, perm) && each[..n] == each;
  }
}
