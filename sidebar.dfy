/**
 * The sidebar component: the static navigation entries, the expanded-ids
 * state cell that lives across clicks, its toggle and click handlers, and the
 * facts that connect a toggle to what is drawn.
 */
module Sidebar {
  import opened Wrappers
  import opened Navigation
  import opened Expansion

  /** The one static entry with children. */
  const Requirements: Item := Item("requirements", "Requirements", Some(Text("Soon")), [
    Item("req-analysis", "Analysis", None, []),
    Item("req-review", "Review", None, [])
  ])

  /** The static navigation entries of the sidebar. */
  const SidebarItems: seq<Item> := [
    Item("dashboard", "Dashboard", None, []),
    Item("projects", "Projects", Some(Text("Soon")), []),
    Requirements,
    Item("uml", "UML Diagrams", Some(Text("Soon")), []),
    Item("analysis", "Code Analysis", Some(Text("Soon")), []),
    Item("testing", "Testing", Some(Text("Soon")), []),
    Item("settings", "Settings", Some(Text("Soon")), [])
  ]

  /** The state of one mounted sidebar: the ids of the expanded entries. */
  class SidebarState {
    var expandedItems: seq<string>

    /** The expanded ids never hold a duplicate. */
    ghost predicate Valid()
      reads this
    {
      NoDuplicates(expandedItems)
    }

    /** At mount nothing is expanded. */
    constructor ()
      ensures Valid() && expandedItems == []
    {
      expandedItems := [];
    }

    /**
     * Replaces the expanded ids by their toggled copy: `itemId` changes
     * membership and no other id does.
     */
    method Toggle(itemId: string)
      requires Valid()
      modifies this
      ensures Valid()
      ensures expandedItems == Toggled(old(expandedItems), itemId)
      ensures itemId in expandedItems <==> itemId !in old(expandedItems)
      ensures forall id :: id != itemId ==> (id in expandedItems <==> id in old(expandedItems))
    {
      expandedItems := Toggled(expandedItems, itemId);
    }

    /**
     * A click on an entry's row toggles the entry when it has children and
     * leaves the state alone otherwise. The `collapsed` flag plays no part.
     */
    method Click(item: Item)
      requires Valid()
      modifies this
      ensures Valid()
      ensures HasChildren(item) ==> expandedItems == Toggled(old(expandedItems), item.id)
      ensures !HasChildren(item) ==> expandedItems == old(expandedItems)
    {
      if HasChildren(item) {
        Toggle(item.id);
      }
    }
  }

  /** Two toggles of the same id draw exactly what was drawn before. */
  lemma ToggleTwiceRendersSame(tree: seq<Item>, s: seq<string>, x: string, collapsed: bool)
    ensures Render(tree, Toggled(Toggled(s, x), x), collapsed) == Render(tree, s, collapsed)
  {
    ToggleTwice(s, x);
    RenderDependsOnMembership(tree, 0, Toggled(Toggled(s, x), x), s, collapsed);
  }

  /** Toggling an id that names no entry of the tree changes nothing on screen. */
  lemma ForeignToggleInvisible(tree: seq<Item>, s: seq<string>, x: string, collapsed: bool)
    requires x !in Preorder(tree)
    ensures Render(tree, Toggled(s, x), collapsed) == Render(tree, s, collapsed)
  {
    RenderDependsOnMembership(tree, 0, Toggled(s, x), s, collapsed);
  }

  /**
   * Toggling an entry changes only that entry's own rows: when its id is
   * not found in the subtree of any sibling, every sibling before it and
   * after it is drawn as before.
   */
  lemma {:induction false} ToggleLeavesSiblings(items: seq<Item>, level: nat, s: seq<string>, i: nat, collapsed: bool)
    requires i < |items|
    requires forall j :: 0 <= j < |items| && j != i ==> items[i].id !in Preorder([items[j]])
    ensures var t := Toggled(s, items[i].id);
      && RenderItems(items[..i], level, t, collapsed) == RenderItems(items[..i], level, s, collapsed)
      && RenderItems(items[i + 1..], level, t, collapsed) == RenderItems(items[i + 1..], level, s, collapsed)
      && RenderItems(items, level, t, collapsed)
         == RenderItems(items[..i], level, s, collapsed)
            + RenderItem(items[i], level, t, collapsed)
            + RenderItems(items[i + 1..], level, s, collapsed)
  {
    var x := items[i].id;
    var t := Toggled(s, x);
    var before, after := items[..i], items[i + 1..];
    assert forall j :: 0 <= j < |before| ==> before[j] == items[j];
    assert forall j :: 0 <= j < |after| ==> after[j] == items[i + 1 + j];
    ToggleOutsideInvisible(before, level, s, x, collapsed);
    ToggleOutsideInvisible(after, level, s, x, collapsed);
    RenderAround(items, i, level, t, collapsed);
  }

  /** The rows of a run of siblings split around the entry at position `i`. */
  lemma RenderAround(items: seq<Item>, i: nat, level: nat, expanded: seq<string>, collapsed: bool)
    requires i < |items|
    ensures RenderItems(items, level, expanded, collapsed)
      == RenderItems(items[..i], level, expanded, collapsed)
         + RenderItem(items[i], level, expanded, collapsed)
         + RenderItems(items[i + 1..], level, expanded, collapsed)
  {
    var before, after := items[..i], items[i + 1..];
    assert items == before + [items[i]] + after;
    RenderItemsConcat(before + [items[i]], after, level, expanded, collapsed);
    RenderItemsConcat(before, [items[i]], level, expanded, collapsed);
    assert [items[i]][1..] == [];
    assert RenderItems([items[i]], level, expanded, collapsed) == RenderItem(items[i], level, expanded, collapsed) + [];
  }

  /** Toggling an id found in none of the siblings' subtrees leaves their rows unchanged. */
  lemma ToggleOutsideInvisible(items: seq<Item>, level: nat, s: seq<string>, x: string, collapsed: bool)
    requires forall j :: 0 <= j < |items| ==> x !in Preorder([items[j]])
    ensures RenderItems(items, level, Toggled(s, x), collapsed) == RenderItems(items, level, s, collapsed)
  {
    forall id | id in Preorder(items)
      ensures id in Toggled(s, x) <==> id in s
    {
      var j := PreorderMember(items, id);
    }
    RenderDependsOnMembership(items, level, Toggled(s, x), s, collapsed);
  }

  /** An id of a run of siblings belongs to the subtree of one of them. */
  lemma {:induction false} PreorderMember(items: seq<Item>, id: string) returns (j: nat)
    requires id in Preorder(items)
    ensures j < |items| && id in Preorder([items[j]])
    decreases items
  {
    assert [items[0]][1..] == [];
    assert Preorder([items[0]]) == [items[0].id] + Preorder(items[0].children) + [];
    if id in Preorder([items[0]]) {
      j := 0;
    } else {
      var k := PreorderMember(items[1..], id);
      assert items[1..][k] == items[k + 1];
      j := k + 1;
    }
  }

  /** At mount only the seven top-level entries are drawn, one row each, in order. */
  lemma MountShowsTopLevel(collapsed: bool)
    ensures var rows := Render(SidebarItems, [], collapsed);
      |rows| == 7 && forall i :: 0 <= i < 7 ==> rows[i].id == SidebarItems[i].id && rows[i].level == 0
  {
    NothingExpandedShowsTopLevel(SidebarItems, 0, [], collapsed);
  }

  /**
   * On the tree made of "requirements" alone: nothing expanded shows its
   * row only; with it expanded, its two children follow one level deeper.
   */
  lemma RequirementsExpanded()
    ensures RowIds(Render([Requirements], [], false)) == ["requirements"]
    ensures var rows := Render([Requirements], ["requirements"], false);
      && RowIds(rows) == ["requirements", "req-analysis", "req-review"]
      && rows[0].chevronRotated && rows[1].level == 1 && rows[2].level == 1
  {
    var e := ["requirements"];
    NothingExpandedShowsTopLevel([Requirements], 0, [], false);
    var kids := RenderItems(Requirements.children, 1, e, false);
    assert Requirements.id in e;
    assert [Requirements][1..] == [];
    assert Render([Requirements], e, false) == RenderItem(Requirements, 0, e, false) + [];
    assert RenderItem(Requirements, 0, e, false) == [RowOf(Requirements, 0, e, false)] + kids;
    NothingExpandedShowsTopLevel(Requirements.children, 1, e, false);
    RowIdsConcat([RowOf(Requirements, 0, e, false)], kids);
  }

  /**
   * A click scenario on the "requirements" entry: the first click expands
   * it, the second closes it, a click on one of its leaves changes nothing.
   */
  method RequirementsScenario()
  {
    var state := new SidebarState();
    var requirements := Requirements;
    state.Click(requirements);
    assert state.expandedItems == ["requirements"];
    state.Click(requirements);
    assert state.expandedItems == [];
    state.Click(requirements.children[0]);
    assert state.expandedItems == [];
  }
}
