/** The menu tree as `wlmtool` builds it (`tool/item.c`): each menu keeps a key index, to
    reject duplicates, beside the list that defines the order. */
module MenuTool {
  import opened MenuTypes
  import opened Options
  import MenuRoundTrip

  /** An item of a menu: a plain entry, or a menu object of its own. */
  datatype Item = EntryItem(key: string, args: seq<string>) | SubItem(menu: ToolMenu) {
    function Key(): string {
      match this
      case EntryItem(key, _) => key
      case SubItem(menu) => menu.title
    }

    function Title(): string {
      match this
      case EntryItem(_, args) => if args == [] then "" else args[0]
      case SubItem(menu) => menu.title
    }
  }

  /** An entry needs at least its title. */
  method EntryCreate(key: string, args: seq<string>) returns (r: Option<Item>)
    ensures r.Some? <==> args != []
    ensures r.Some? ==> r.value == EntryItem(key, args)
  {
    if args == [] {
      return None;
    }
    return Some(EntryItem(key, args));
  }

  /** The items' titles, without their contents. */
  function ItemTitles(items: seq<Item>): (titles: seq<string>)
    ensures |titles| == |items|
  {
    seq(|items|, i requires 0 <= i < |items| => items[i].Title())
  }

  /** Index and list hold the same items, under pairwise distinct keys. */
  ghost predicate Indexed(index: map<string, Item>, items: seq<Item>) {
    && (forall i :: 0 <= i < |items| ==> items[i].Key() in index && index[items[i].Key()] == items[i])
    && (forall i, j :: 0 <= i < j < |items| ==> items[i].Key() != items[j].Key())
    && (forall k :: k in index ==> index[k] in items && index[k].Key() == k)
  }

  lemma IndexedAdd(index: map<string, Item>, items: seq<Item>, item: Item)
    requires Indexed(index, items) && item.Key() !in index
    ensures Indexed(index[item.Key() := item], items + [item])
  {
    var index', items' := index[item.Key() := item], items + [item];
    forall k | k in index'
      ensures index'[k] in items' && index'[k].Key() == k
    {
      assert k != item.Key() ==> index[k] in items;
      assert items'[|items|] == item;
    }
  }

  class ToolMenu {
    const title: string
    var index: map<string, Item>
    var items: seq<Item>
    ghost var Repr: set<object>

    /** `menu` is a valid tree strictly below this one. */
    ghost predicate Holds(menu: ToolMenu)
      reads this, Repr
      decreases Repr, 0
    {
      && menu in Repr
      && menu.Repr <= Repr
      && this in Repr && this !in menu.Repr
      && menu.Valid()
    }

    /** Submenus are separate, valid trees below this one. */
    ghost predicate Valid()
      reads this, Repr
      decreases Repr, 1
      ensures Valid() ==> this in Repr
    {
      && this in Repr
      && Indexed(index, items)
      && (forall i :: 0 <= i < |items| && items[i].SubItem? ==>
            Holds(items[i].menu))
      && (forall i, j :: 0 <= i < |items| && 0 <= j < |items| && i != j && items[i].SubItem? && items[j].SubItem? ==>
            items[i].menu.Repr !! items[j].menu.Repr)
    }

    /** The abstract tree of item `i`. */
    ghost function TreeAt(i: nat): (t: Tree)
      requires Valid() && i < |items|
      reads this, Repr
      decreases Repr, 0
      ensures t.Title() == items[i].Title()
    {
      if items[i].EntryItem? then Entry(items[i].args)
      else
        var menu := items[i].menu;
        assert Holds(menu);
        Menu(menu.title, menu.Trees(|menu.items|))
    }

    /** The abstract trees of the first `n` items. */
    ghost function Trees(n: nat): (trees: seq<Tree>)
      requires Valid() && n <= |items|
      reads this, Repr
      decreases Repr, 1, n
      ensures |trees| == n
      ensures forall i :: 0 <= i < n ==> trees[i] == TreeAt(i)
    {
      if n == 0 then [] else Trees(n - 1) + [TreeAt(n - 1)]
    }

    ghost function Tree(): Tree
      requires Valid()
      reads this, Repr
    {
      Menu(title, Trees(|items|))
    }

    constructor (title: string)
      ensures this.title == title && items == []
      ensures Valid() && fresh(Repr)
    {
      this.title := title;
      index, items := map[], [];
      Repr := {this};
    }

    /** Adds an item unless its key is taken. */
    method AddItem(item: Item) returns (ok: bool)
      requires Valid()
      requires item.SubItem? ==> item.menu.Valid() && item.menu.Repr !! Repr
      modifies this
      ensures Valid()
      ensures ok <==> item.Key() !in old(index)
      ensures ok ==> items == old(items) + [item] && index == old(index)[item.Key() := item]
      ensures ok ==> Repr == old(Repr) + if item.SubItem? then item.menu.Repr else {}
      ensures !ok ==> items == old(items) && index == old(index) && Repr == old(Repr)
    {
      if item.Key() in index {
        return false;
      }
      index := index[item.Key() := item];
      items := items + [item];
      if item.SubItem? {
        Repr := Repr + item.menu.Repr;
      }
      ExtendedIsValid(item);
      return true;
    }

    /** Appending an item with a new key keeps the tree valid. */
    twostate lemma ExtendedIsValid(item: Item)
      requires old(Valid()) && item.Key() !in old(index)
      requires item.SubItem? ==> item.menu.Valid() && item.menu.Repr !! old(Repr)
      requires items == old(items) + [item] && index == old(index)[item.Key() := item]
      requires Repr == old(Repr) + if item.SubItem? then item.menu.Repr else {}
      requires forall o: object :: o in old(Repr) && o != this ==> unchanged(o)
      ensures Valid()
    {
      IndexedAdd(old(index), old(items), item);
      forall i | 0 <= i < |items| && items[i].SubItem?
        ensures Holds(items[i].menu)
        ensures i < |items| - 1 ==> items[i].menu.Repr == old(items[i].menu.Repr) <= old(Repr)
      {
        if i < |items| - 1 {
          assert old(Holds(items[i].menu));
        }
      }
    }

    /** Returns what `key` stands for, a new submenu when it stood for nothing.  The program
        takes the result for a submenu, which it is unless the key was that of an entry. */
    method GetOrCreateSubmenu(key: string) returns (found: Item)
      requires Valid()
      modifies this
      ensures Valid()
      ensures key in index && index[key] == found && found.Key() == key
      ensures found.SubItem? <==> key in old(index) ==> old(index)[key].SubItem?
      ensures key in old(index) ==> items == old(items) && index == old(index) && Repr == old(Repr)
      ensures key !in old(index) ==>
        && fresh(found.menu) && found.menu.title == key && found.menu.items == []
        && items == old(items) + [found]
        && Repr == old(Repr) + found.menu.Repr && fresh(found.menu.Repr)
    {
      if key in index {
        return index[key];
      }
      var menu := new ToolMenu(key);
      found := SubItem(menu);
      var ok := AddItem(found);
    }

    /** Asking twice for the same key gives the same result and changes nothing more. */
    method GetOrCreateTwice(key: string) returns (first: Item, second: Item)
      requires Valid()
      modifies this
      ensures Valid() && first == second
      ensures items == old(items) || items == old(items) + [first]
    {
      first := GetOrCreateSubmenu(key);
      second := GetOrCreateSubmenu(key);
    }

    // ---------- Printing ----------

    /** Item `k` is now what item `i` was, submenu contents included. */
    twostate predicate Kept(i: nat, k: nat)
      requires old(Valid()) && i < |old(items)| && k < |items|
      reads this, Repr, if items[k].SubItem? then {items[k].menu} + items[k].menu.Repr else {}
    {
      && items[k] == old(items[i])
      && (items[k].SubItem? ==>
            && old(Holds(items[i].menu))
            && Holds(items[k].menu)
            && items[k].menu.Repr == old(items[i].menu.Repr)
            && items[k].menu.items == old(items[i].menu.items)
            && items[k].menu.Trees(|items[k].menu.items|) == old(items[i].menu.Trees(|items[i].menu.items|)))
    }

    /** Rearranging the items leaves the submenus alone. */
    twostate lemma AllKept(perm: seq<nat>)
      requires old(Valid()) && Repr == old(Repr) && |perm| == |items|
      requires forall i :: 0 <= i < |perm| ==> perm[i] < |old(items)| && items[i] == old(items)[perm[i]]
      requires forall o: object :: o in Repr && o != this ==> unchanged(o)
      ensures forall i :: 0 <= i < |perm| ==> Kept(perm[i], i)
    {
      forall i | 0 <= i < |perm|
        ensures Kept(perm[i], i)
      {
        assert items[i].SubItem? ==> old(Holds(items[perm[i]].menu));
      }
    }

    /** A menu whose items are all kept, in whatever order, is still a valid tree. */
    twostate lemma KeptIsValid(perm: seq<nat>)
      requires old(Valid()) && Repr == old(Repr) && |perm| == |items|
      requires Indexed(index, items)
      requires forall i :: 0 <= i < |perm| ==> perm[i] < |old(items)|
      requires forall i, j :: 0 <= i < j < |perm| ==> perm[i] != perm[j]
      requires forall i :: 0 <= i < |perm| ==> Kept(perm[i], i)
      ensures Valid()
      ensures forall i :: 0 <= i < |perm| ==> TreeAt(i) == old(TreeAt(perm[i]))
    {
      forall i | 0 <= i < |items| && items[i].SubItem?
        ensures Holds(items[i].menu)
      {
        assert Kept(perm[i], i);
      }
      forall i, j | 0 <= i < |items| && 0 <= j < |items| && i != j && items[i].SubItem? && items[j].SubItem?
        ensures items[i].menu.Repr !! items[j].menu.Repr
      {
        assert Kept(perm[i], i) && Kept(perm[j], j);
      }
      forall i | 0 <= i < |perm|
        ensures TreeAt(i) == old(TreeAt(perm[i]))
      {
        assert Kept(perm[i], i);
      }
    }

    /** Changing one submenu, within its own objects, leaves the others alone. */
    twostate lemma OneChanged(i: nat)
      requires old(Valid()) && i < |items| && items[i].SubItem?
      requires Repr == old(Repr) && index == old(index) && items == old(items)
      requires items[i].menu.Valid() && items[i].menu.Repr == old(items[i].menu.Repr)
      requires forall o: object :: o in Repr && o !in items[i].menu.Repr ==> unchanged(o)
      ensures Valid()
      ensures forall j :: 0 <= j < |items| && j != i ==> TreeAt(j) == old(TreeAt(j))
    {
      assert old(Holds(items[i].menu));
      forall j | 0 <= j < |items| && j != i
        ensures Kept(j, j)
      {
        assert items[j].SubItem? ==> old(Holds(items[j].menu));
      }
    }

    method Reorder(perm: seq<nat>)
      requires forall i :: 0 <= i < |perm| ==> perm[i] < |items|
      modifies `items
      ensures items == Permute(old(items), perm)
    {
      items := Permute(items, perm);
    }

    /** Sorts the items by title, in place. */
    method SortItems() returns (perm: seq<nat>)
      requires Valid()
      modifies this
      ensures Valid() && Repr == old(Repr) && index == old(index) && |items| == |old(items)|
      ensures perm == Order(ItemTitles(old(items)), |items|)
      ensures forall i :: 0 <= i < |items| ==> items[i] == old(items)[perm[i]]
      ensures forall i :: 0 <= i < |items| ==> TreeAt(i) == old(TreeAt(perm[i]))
    {
      perm := Order(ItemTitles(items), |items|);
      OrderPermutes(ItemTitles(items), index, items, perm);
      Reorder(perm);
      AllKept(perm);
      KeptIsValid(perm);
    }

    /** Prints item `i` of a menu; printing a submenu sorts it. */
    method PrintItem(i: nat) returns (o: Obj)
      requires Valid() && i < |items|
      modifies Repr - {this}
      ensures Valid() && Repr == old(Repr) && index == old(index) && items == old(items)
      ensures o == MenuRoundTrip.Print(old(TreeAt(i)))
      ensures TreeAt(i) == DeepSorted(old(TreeAt(i)))
      ensures forall j :: 0 <= j < |items| && j != i ==> TreeAt(j) == old(TreeAt(j))
      decreases Repr, 0
    {
      if items[i].EntryItem? {
        var args := items[i].args;
        return Arr(seq(|args|, k requires 0 <= k < |args| => Str(args[k])));
      }
      var menu := items[i].menu;
      assert Holds(menu);
      o := menu.CreateArray();
      OneChanged(i);
    }

    /** Prints the items in their current order. */
    method PrintItems() returns (elements: seq<Obj>)
      requires Valid()
      modifies Repr - {this}
      ensures Valid() && Repr == old(Repr) && index == old(index) && items == old(items)
      ensures |elements| == |items|
      ensures forall j :: 0 <= j < |items| ==> elements[j] == MenuRoundTrip.Print(old(TreeAt(j)))
      ensures forall j :: 0 <= j < |items| ==> TreeAt(j) == DeepSorted(old(TreeAt(j)))
      decreases Repr, 1
    {
      elements := [];
      for i := 0 to |items|
        invariant Valid() && Repr == old(Repr) && index == old(index) && items == old(items)
        invariant |elements| == i
        invariant forall j :: 0 <= j < i ==> elements[j] == MenuRoundTrip.Print(old(TreeAt(j)))
        invariant forall j :: 0 <= j < i ==> TreeAt(j) == DeepSorted(old(TreeAt(j)))
        invariant forall j :: i <= j < |items| ==> TreeAt(j) == old(TreeAt(j))
      {
        var element := PrintItem(i);
        elements := elements + [element];
      }
    }

    /** Prints the menu as nested arrays.  The items, here and in all submenus, end up sorted;
        otherwise the tree is unchanged. */
    method CreateArray() returns (o: Obj)
      requires Valid()
      modifies Repr
      ensures Valid() && Repr == old(Repr) && index == old(index)
      ensures o == MenuRoundTrip.Print(old(Tree()))
      ensures Tree() == DeepSorted(old(Tree()))
      decreases Repr, 3
    {
      ghost var before := Trees(|items|);
      assert ItemTitles(items) == Titles(before);
      var perm := SortItems();
      o := PrintSorted(perm, before);
      PrintingOrder(Menu(title, before));
    }

    /** Prints the menu once its items are in the order `perm` of the trees `before`. */
    method PrintSorted(ghost perm: seq<nat>, ghost before: seq<Tree>) returns (o: Obj)
      requires Valid() && |perm| == |items|
      requires forall i :: 0 <= i < |perm| ==> perm[i] < |before| && TreeAt(i) == before[perm[i]]
      modifies Repr - {this}
      ensures Valid() && Repr == old(Repr) && index == old(index)
      ensures o == MenuRoundTrip.PrintBy(Menu(title, before), perm)
      ensures Tree() == SortedBy(Menu(title, before), perm)
      decreases Repr, 2
    {
      ghost var sorted := Trees(|items|);
      var elements := PrintItems();
      o := Arr([Str(title)] + elements);
      PrintedBy(Menu(title, before), perm, sorted, elements);
      SortedAs(Menu(title, before), perm, sorted, Trees(|items|));
    }
  }

  lemma PrintingOrder(t: Tree)
    requires t.Menu?
    ensures var perm := Order(Titles(t.items), |t.items|);
            MenuRoundTrip.Print(t) == MenuRoundTrip.PrintBy(t, perm) && DeepSorted(t) == SortedBy(t, perm)
  {
  }

  /** Printed items, in some order, below the title are the menu printed in that order. */
  lemma PrintedBy(t: Tree, perm: seq<nat>, sorted: seq<Tree>, elements: seq<Obj>)
    requires t.Menu? && |perm| == |sorted| == |elements|
    requires forall i :: 0 <= i < |perm| ==> perm[i] < |t.items| && sorted[i] == t.items[perm[i]]
    requires forall i :: 0 <= i < |perm| ==> elements[i] == MenuRoundTrip.Print(sorted[i])
    ensures Arr([Str(t.title)] + elements) == MenuRoundTrip.PrintBy(t, perm)
  {
    var printed := MenuRoundTrip.PrintBy(t, perm).items;
    forall i | 0 <= i < |perm|
      ensures elements[i] == printed[i + 1]
    {
      MenuRoundTrip.PrintByAt(t, perm, i);
    }
    SameElements(t.title, elements, printed);
  }

  lemma SortedAs(t: Tree, perm: seq<nat>, sorted: seq<Tree>, after: seq<Tree>)
    requires t.Menu? && |perm| == |sorted| == |after|
    requires forall i :: 0 <= i < |perm| ==> perm[i] < |t.items| && sorted[i] == t.items[perm[i]]
    requires forall i :: 0 <= i < |perm| ==> after[i] == DeepSorted(sorted[i])
    ensures Menu(t.title, after) == SortedBy(t, perm)
  {
    forall i | 0 <= i < |perm|
      ensures after[i] == SortedBy(t, perm).items[i]
    {
      assert sorted[i] == t.items[perm[i]];
    }
    assert after == SortedBy(t, perm).items;
  }

  lemma SameElements(title: string, elements: seq<Obj>, printed: seq<Obj>)
    requires |printed| == |elements| + 1 && printed[0] == Str(title)
    requires forall i :: 0 <= i < |elements| ==> elements[i] == printed[i + 1]
    ensures [Str(title)] + elements == printed
  {
    assert printed[1..] == elements;
  }

  lemma OrderIsInjective(titles: seq<string>, perm: seq<nat>)
    requires StableOrder(titles, perm, |titles|)
    ensures forall i, j :: 0 <= i < j < |perm| ==> perm[i] != perm[j]
  {
    forall i, j | 0 <= i < j < |perm|
      ensures perm[i] != perm[j]
    {
      BeforeIrreflexive(titles[perm[i]]);
    }
  }

  lemma IndexedPermute(index: map<string, Item>, items: seq<Item>, perm: seq<nat>)
    requires Indexed(index, items) && |perm| == |items|
    requires forall i :: 0 <= i < |perm| ==> perm[i] < |items|
    requires forall i, j :: 0 <= i < j < |perm| ==> perm[i] != perm[j]
    requires forall k :: 0 <= k < |items| ==> k in perm
    ensures Indexed(index, Permute(items, perm))
  {
    var permuted := Permute(items, perm);
    forall k | k in index
      ensures index[k] in permuted
    {
      assert index[k] in items;
      var i :| 0 <= i < |items| && items[i] == index[k];
      assert i in perm;
      var j :| 0 <= j < |perm| && perm[j] == i;
      assert permuted[j] == index[k];
    }
  }

  lemma {:induction false} OrderPermutes(titles: seq<string>, index: map<string, Item>, items: seq<Item>,
                                         perm: seq<nat>)
    requires Indexed(index, items) && |titles| == |items| && perm == Order(titles, |items|)
    ensures forall i, j :: 0 <= i < j < |perm| ==> perm[i] != perm[j]
    ensures Indexed(index, Permute(items, perm))
  {
    OrderIsStable(titles, |items|);
    OrderIsInjective(titles, perm);
    IndexedPermute(index, items, perm);
  }

  /** The same tree with every menu's items in printing order. */
  function DeepSorted(t: Tree): (r: Tree)
    ensures r.Title() == t.Title()
    decreases t, 1
  {
    match t
    case Entry(_) => t
    case Menu(title, items) => SortedBy(t, Order(Titles(items), |items|))
  }

  function SortedBy(t: Tree, perm: seq<nat>): (r: Tree)
    requires t.Menu? && forall i :: 0 <= i < |perm| ==> perm[i] < |t.items|
    ensures r.Menu? && r.title == t.title && |r.items| == |perm|
    decreases t, 0
  {
    Menu(t.title, seq(|perm|, i requires 0 <= i < |perm| => DeepSorted(t.items[perm[i]])))
  }

  /** A sorted list is already in stable order. */
  lemma SortedOrderIsIdentity(titles: seq<string>, n: nat)
    requires n == |titles|
    requires forall i, j :: 0 <= i < j < n ==> !Before(titles[j], titles[i])
    ensures forall i :: 0 <= i < n ==> Order(titles, n)[i] == i
  {
    var identity := seq(n, i => i);
    OrderIsStable(titles, n);
    forall i, j | 0 <= i < j < n
      ensures Precedes(titles, identity[i], identity[j])
    {
      BeforeTotal(titles[i], titles[j]);
    }
    forall k | 0 <= k < n
      ensures k in identity
    {
      assert identity[k] == k;
    }
    StableOrderUnique(titles, Order(titles, n), identity, n, n);
    assert Order(titles, n)[..n] == Order(titles, n) && identity[..n] == identity;
  }

  lemma {:induction false} SortedTitles(items: seq<Tree>, sorted: seq<Tree>)
    requires |sorted| == |items|
    requires var perm := Order(Titles(items), |items|);
             forall i :: 0 <= i < |items| ==> sorted[i].Title() == items[perm[i]].Title()
    ensures forall i :: 0 <= i < |sorted| ==> Order(Titles(sorted), |sorted|)[i] == i
  {
    var perm := Order(Titles(items), |items|);
    OrderIsStable(Titles(items), |items|);
    forall i, j | 0 <= i < j < |sorted|
      ensures !Before(Titles(sorted)[j], Titles(sorted)[i])
    {
      assert Precedes(Titles(items), perm[i], perm[j]);
      BeforeTotal(sorted[i].Title(), sorted[j].Title());
    }
    SortedOrderIsIdentity(Titles(sorted), |sorted|);
  }

  /** Printing sorts the menu in place, yet printing it again gives the same array. */
  lemma {:induction false} PrintsTheSameAgain(t: Tree)
    ensures MenuRoundTrip.Print(DeepSorted(t)) == MenuRoundTrip.Print(t)
    decreases t
  {
    if t.Menu? {
      var perm := Order(Titles(t.items), |t.items|);
      var sorted := SortedBy(t, perm);
      forall i | 0 <= i < |perm|
        ensures MenuRoundTrip.Print(sorted.items[i]) == MenuRoundTrip.Print(t.items[perm[i]])
      {
        PrintsTheSameAgain(t.items[perm[i]]);
      }
      SortedTitles(t.items, sorted.items);
      SamePrint(t, perm, sorted, Order(Titles(sorted.items), |sorted.items|));
    }
  }

  lemma SamePrint(t: Tree, perm: seq<nat>, sorted: Tree, identity: seq<nat>)
    requires t.Menu? && sorted.Menu? && t.title == sorted.title
    requires |perm| == |t.items| == |sorted.items| == |identity|
    requires forall i :: 0 <= i < |perm| ==> perm[i] < |t.items| && identity[i] == i
    requires forall i :: 0 <= i < |perm| ==>
               MenuRoundTrip.Print(sorted.items[i]) == MenuRoundTrip.Print(t.items[perm[i]])
    ensures MenuRoundTrip.PrintBy(sorted, identity) == MenuRoundTrip.PrintBy(t, perm)
  {
    var a, b := MenuRoundTrip.PrintBy(sorted, identity), MenuRoundTrip.PrintBy(t, perm);
    forall k | 0 <= k < |a.items|
      ensures a.items[k] == b.items[k]
    {
      if k > 0 {
        MenuRoundTrip.PrintByAt(sorted, identity, k - 1);
        MenuRoundTrip.PrintByAt(t, perm, k - 1);
      }
    }
    assert a.items == b.items;
  }
}
