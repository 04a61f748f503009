/** From the tool's menu to the menu on screen: what the generator statement does with the
    output of `wlmtool`. */
module MenuPipeline {
  import opened MenuTypes
  import MenuRoundTrip
  import MenuTool
  import RootMenu

  /** Reads the tool's output into `menu`; on failure what could be read stays, followed by a
      disabled item saying so. */
  method ReadOutput(env: RootMenu.Env, printed: Obj, notice: string, menu: RootMenu.MenuObject) returns (ok: bool)
    requires printed.Arr?
    modifies menu
    ensures var read := RootMenu.Populate(env, printed);
            && ok == read.ok
            && menu.items == old(menu.items) + read.items + if ok then [] else [RootMenu.Disabled(notice)]
  {
    ok := RootMenu.PopulateMenu(env, menu, printed);
    if !ok {
      menu.AddItem(RootMenu.Disabled(notice));
    }
  }

  /** The same in terms of the tree that was printed. */
  method ShowTree(env: RootMenu.Env, ghost tree: Tree, printed: Obj, notice: string, menu: RootMenu.MenuObject)
      returns (ok: bool)
    requires tree.Menu? && printed == MenuRoundTrip.Print(tree)
    modifies menu
    ensures ok <==> tree.items != [] && MenuRoundTrip.Accepted(env, tree)
    ensures ok ==> menu.items == old(menu.items) + MenuRoundTrip.ShownItems(env, tree)
    ensures !ok ==> menu.items == old(menu.items) + RootMenu.Populate(env, printed).items + [RootMenu.Disabled(notice)]
  {
    MenuRoundTrip.ToolOutputReadsBack(env, tree.title, tree.items);
    ok := ReadOutput(env, printed, notice, menu);
  }

  /** Prints the tool's menu and reads the result into `menu`.  It works exactly for a
      non-empty menu whose entries are all accepted, and then shows the tool's tree with
      every level sorted by title. */
  method Generate(env: RootMenu.Env, tool: MenuTool.ToolMenu, notice: string, menu: RootMenu.MenuObject)
      returns (ok: bool)
    requires tool.Valid() && (menu as object) !in tool.Repr
    modifies tool.Repr, menu
    ensures tool.Valid()
    ensures ok <==> old(tool.items) != [] && MenuRoundTrip.Accepted(env, old(tool.Tree()))
    ensures ok ==> menu.items == old(menu.items) + MenuRoundTrip.ShownItems(env, old(tool.Tree()))
    ensures !ok ==>
      var read := RootMenu.Populate(env, MenuRoundTrip.Print(old(tool.Tree()))).items;
      menu.items == old(menu.items) + read + [RootMenu.Disabled(notice)]
    ensures tool.Tree() == MenuTool.DeepSorted(old(tool.Tree()))
  {
    ghost var tree := tool.Tree();
    var printed := tool.CreateArray();
    ok := ShowTree(env, tree, printed, notice, menu);
  }
}
