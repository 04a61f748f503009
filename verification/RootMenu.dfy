/** Reading a menu from nested plist arrays (`src/root_menu.c`). */
module RootMenu {
  import opened MenuTypes
  import opened Options

  /** A menu item on screen. */
  datatype Item =
    | Disabled(title: string)
    | Action(title: string, action: int, arg: Option<string>)
    | Submenu(title: string, items: seq<Item>)

  /** What a menu looks like after reading an array into it: the items added, in order, and
      whether reading got to the end. */
  datatype Populated = Populated(items: seq<Item>, ok: bool)

  const INCLUDE_STATEMENT := "IncludePlistMenu"
  const GENERATE_STATEMENT := "GeneratePlistMenu"

  /** Lookups outside this file: action names, and the menus that include and generate
      statements pull in. */
  datatype Env = Env(actions: map<string, int>, external: (string, Option<string>) -> Populated)

  function StringAt(o: Obj, i: nat): Option<string>
    requires o.Arr?
  {
    if i < |o.items| && o.items[i].Str? then Some(o.items[i].s) else None
  }

  // ---------- The three mutually recursive readers ----------

  /** The item an array describes, or `None` on error. */
  function CreateItem(env: Env, o: Obj): (r: Option<Item>)
    requires o.Arr?
    decreases o, 3
  {
    var title, name := StringAt(o, 0), StringAt(o, 1);
    if title.None? then None
    else if |o.items| <= 1 then Some(Disabled(title.value))
    else if name.Some? && name.value in env.actions then
      Some(Action(title.value, env.actions[name.value], StringAt(o, 2)))
    else
      var sub := InitMenu(env, o);
      if sub.ok then Some(Submenu(title.value, sub.items)) else None
  }

  /** Fills a menu according to the kind of its second element. */
  function InitMenu(env: Env, o: Obj): Populated
    requires o.Arr?
    decreases o, 2
  {
    if |o.items| < 2 then Populated([], false)
    else
      match o.items[1]
      case Arr(_) => Populate(env, o)
      case Str(statement) =>
        if |o.items| < 3 then Populated([], false)
        else if statement == INCLUDE_STATEMENT || statement == GENERATE_STATEMENT then
          env.external(statement, StringAt(o, 2))
        else Populated([], false)
      case Dict => Populated([], false)
  }

  /** Fills a menu from an array of a title followed by item arrays. */
  function Populate(env: Env, o: Obj): Populated
    requires o.Arr?
    decreases o, 1
  {
    if |o.items| <= 1 || StringAt(o, 0).None? then Populated([], false)
    else PopulateFrom(env, o, 1)
  }

  /** The items of elements `i` and up, as far as they can be read. */
  function PopulateFrom(env: Env, o: Obj, i: nat): Populated
    requires o.Arr? && i <= |o.items|
    decreases o, 0, |o.items| - i
  {
    if i == |o.items| then Populated([], true)
    else
      var item := ElementItem(env, o, i);
      if item.None? then Populated([], false)
      else
        var rest := PopulateFrom(env, o, i + 1);
        Populated([item.value] + rest.items, rest.ok)
  }

  /** The item of one element, which must be an array starting with a string. */
  function ElementItem(env: Env, o: Obj, i: nat): Option<Item>
    requires o.Arr? && i < |o.items|
    decreases o, 0, 0
  {
    var e := o.items[i];
    if !e.Arr? || StringAt(e, 0).None? then None else CreateItem(env, e)
  }

  // ---------- What can be read ----------

  /** Element `i` is an array that describes an item. */
  predicate Describes(env: Env, o: Obj, i: nat)
    requires o.Arr?
  {
    i < |o.items| && o.items[i].Arr? && CreateItem(env, o.items[i]).Some?
  }

  lemma ElementIff(env: Env, o: Obj, i: nat)
    requires o.Arr? && i < |o.items|
    ensures ElementItem(env, o, i).Some? <==> Describes(env, o, i)
    ensures Describes(env, o, i) ==> ElementItem(env, o, i) == CreateItem(env, o.items[i])
  {
  }

  /** From element `i` on, the items are those of the elements, up to the first that describes
      none. */
  ghost predicate ReadsFrom(env: Env, o: Obj, i: nat, r: Populated)
    requires o.Arr? && i <= |o.items|
  {
    && i + |r.items| <= |o.items|
    && (forall k :: i <= k < i + |r.items| ==>
          Describes(env, o, k) && Some(r.items[k - i]) == CreateItem(env, o.items[k]))
    && (r.ok <==> i + |r.items| == |o.items|)
    && !Describes(env, o, i + |r.items|)
  }

  lemma {:induction false} PopulateFromIff(env: Env, o: Obj, i: nat)
    requires o.Arr? && i <= |o.items|
    ensures ReadsFrom(env, o, i, PopulateFrom(env, o, i))
    decreases |o.items| - i
  {
    if i < |o.items| {
      ElementIff(env, o, i);
      PopulateFromIff(env, o, i + 1);
    }
  }

  /** Any array: without a title, or with nothing after it, nothing is read; else the items are
      those of the elements after it, up to the first that describes none. */
  lemma {:induction false} PopulateIff(env: Env, o: Obj)
    requires o.Arr?
    ensures if |o.items| > 1 && o.items[0].Str? then ReadsFrom(env, o, 1, Populate(env, o))
            else Populate(env, o) == Populated([], false)
  {
    if |o.items| > 1 && o.items[0].Str? {
      PopulateFromIff(env, o, 1);
    }
  }

  // ---------- The menu object ----------

  /** The toolkit menu the readers append to. */
  class MenuObject {
    var items: seq<Item>

    constructor ()
      ensures items == []
    {
      items := [];
    }

    method AddItem(item: Item)
      modifies this
      ensures items == old(items) + [item]
    {
      items := items + [item];
    }
  }

  /** Reading elements 1 to `i` has given the items `done`. */
  ghost predicate ReadTo(env: Env, o: Obj, i: nat, done: seq<Item>)
    requires o.Arr? && i <= |o.items|
  {
    var rest := PopulateFrom(env, o, i);
    Populate(env, o) == Populated(done + rest.items, rest.ok)
  }

  /** One more element. */
  lemma ReadStep(env: Env, o: Obj, i: nat, done: seq<Item>)
    requires o.Arr? && i < |o.items| && ReadTo(env, o, i, done)
    ensures var item := ElementItem(env, o, i);
            if item.Some? then ReadTo(env, o, i + 1, done + [item.value])
            else Populate(env, o) == Populated(done, false)
  {
    var item, rest := ElementItem(env, o, i), PopulateFrom(env, o, i + 1);
    if item.Some? {
      assert done + ([item.value] + rest.items) == done + [item.value] + rest.items;
    }
  }

  /** Appends the items of an array to `menu`, stopping at the first that cannot be read. */
  method PopulateMenu(env: Env, menu: MenuObject, o: Obj) returns (ok: bool)
    requires o.Arr?
    modifies menu
    ensures ok == Populate(env, o).ok
    ensures menu.items == old(menu.items) + Populate(env, o).items
    decreases o, 1
  {
    if |o.items| <= 1 {
      return false;
    }
    if StringAt(o, 0).None? {
      return false;
    }
    ghost var before, done := menu.items, [];
    for i := 1 to |o.items|
      invariant menu.items == before + done
      invariant ReadTo(env, o, i, done)
    {
      ReadStep(env, o, i, done);
      var e := o.items[i];
      if !e.Arr? {
        return false;
      }
      if StringAt(e, 0).None? {
        return false;
      }
      var item := CreateMenuItem(env, e);
      if item.None? {
        return false;
      }
      menu.AddItem(item.value);
      done := done + [item.value];
    }
    return true;
  }

  method InitMenuObject(env: Env, menu: MenuObject, o: Obj) returns (ok: bool)
    requires o.Arr?
    modifies menu
    ensures ok == InitMenu(env, o).ok
    ensures menu.items == old(menu.items) + InitMenu(env, o).items
    decreases o, 2
  {
    if |o.items| < 2 {
      return false;
    }
    match o.items[1] {
      case Arr(_) =>
        ok := PopulateMenu(env, menu, o);
      case Str(statement) =>
        if |o.items| < 3 {
          return false;
        }
        if statement != INCLUDE_STATEMENT && statement != GENERATE_STATEMENT {
          return false;
        }
        var outcome := env.external(statement, StringAt(o, 2));
        menu.items := menu.items + outcome.items;
        ok := outcome.ok;
      case Dict =>
        ok := false;
    }
  }

  method CreateMenuItem(env: Env, o: Obj) returns (r: Option<Item>)
    requires o.Arr?
    ensures r == CreateItem(env, o)
    decreases o, 3
  {
    var title, name := StringAt(o, 0), StringAt(o, 1);
    if title.None? {
      return None;
    }
    if |o.items| <= 1 {
      return Some(Disabled(title.value));
    }
    if name.Some? && name.value in env.actions {
      return Some(Action(title.value, env.actions[name.value], StringAt(o, 2)));
    }
    var submenu := new MenuObject();
    var ok := InitMenuObject(env, submenu, o);
    assert submenu.items == InitMenu(env, o).items;
    r := if ok then Some(Submenu(title.value, submenu.items)) else None;
  }
}
