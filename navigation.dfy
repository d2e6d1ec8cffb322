/**
 * The collapsible navigation tree of the sidebar: its entries, and the pure
 * rendering of a tree, given the expanded ids and the sidebar's `collapsed`
 * display flag, into the ordered list of rows that appear on screen.
 */
module Navigation {
  import opened Wrappers

  /** The badge of an entry: the component's `badge` type allows a string or a number. */
  datatype Badge = Text(text: string) | Count(count: int)

  /**
   * One entry of the navigation tree. The component's optional `children` list
   * is the empty sequence when absent: the renderer treats a missing list and
   * an empty one alike. Icons and links are not modelled.
   */
  datatype Item = Item(id: string, caption: string, badge: Option<Badge>, children: seq<Item>)

  /**
   * One rendered row: the entry's id, its nesting level, the label text shown
   * (None when hidden), the badge pill shown (None when hidden), whether the
   * chevron is drawn and whether it is drawn rotated.
   */
  datatype Row = Row(id: string, level: nat, caption: Option<string>, badge: Option<Badge>,
                     chevronShown: bool, chevronRotated: bool)

  /** An entry can be expanded only when it has at least one child. */
  predicate HasChildren(item: Item) {
    |item.children| > 0
  }

  /** JavaScript truthiness of the optional badge: undefined, "" and 0 are falsy. */
  predicate BadgeTruthy(badge: Option<Badge>) {
    match badge
    case None => false
    case Some(Text(s)) => s != ""
    case Some(Count(n)) => n != 0
  }

  /** The guard in front of the nested list of children. */
  predicate ShowsChildren(item: Item, expanded: seq<string>, collapsed: bool) {
    HasChildren(item) && item.id in expanded && !collapsed
  }

  /**
   * The row drawn for one entry at the given nesting level. Whatever it
   * shows comes from that entry: its id, its label text, its badge.
   */
  function RowOf(item: Item, level: nat, expanded: seq<string>, collapsed: bool): (r: Row)
    ensures r.id == item.id && r.level == level
    ensures r.caption.Some? ==> r.caption == Some(item.caption)
    ensures r.badge.Some? ==> r.badge == item.badge
  {
    var chevron := !collapsed && HasChildren(item);
    Row(item.id, level,
        if !collapsed || level > 0 then Some(item.caption) else None,
        if !collapsed && BadgeTruthy(item.badge) then item.badge else None,
        chevron,
        chevron && item.id in expanded)
  }

  /**
   * The rows of one entry: its own row, followed, when the children are
   * shown, by the rows of its children one level deeper. Every row below the
   * entry's own one is strictly deeper than it.
   */
  function RenderItem(item: Item, level: nat, expanded: seq<string>, collapsed: bool): (rows: seq<Row>)
    ensures |rows| > 0 && rows[0].id == item.id && rows[0].level == level
    ensures forall k :: 1 <= k < |rows| ==> rows[k].level > level
    ensures |rows| > 1 <==> ShowsChildren(item, expanded, collapsed)
    decreases item
  {
    [RowOf(item, level, expanded, collapsed)]
    + (if ShowsChildren(item, expanded, collapsed)
       then RenderItems(item.children, level + 1, expanded, collapsed)
       else [])
  }

  /** The rows of a sequence of sibling entries, one entry after another. */
  function RenderItems(items: seq<Item>, level: nat, expanded: seq<string>, collapsed: bool): (rows: seq<Row>)
    ensures |rows| >= |items|
    ensures rows == [] <==> items == []
    ensures forall k :: 0 <= k < |rows| ==> rows[k].level >= level
    decreases items
  {
    if items == [] then []
    else RenderItem(items[0], level, expanded, collapsed) + RenderItems(items[1..], level, expanded, collapsed)
  }

  /**
   * The navigation list: the rows at level 0 are the top-level entries, all
   * of them and in their order, and every row obeys the display rules.
   */
  function Render(tree: seq<Item>, expanded: seq<string>, collapsed: bool): (rows: seq<Row>)
    ensures IdsAt(rows, 0) == Ids(tree)
    ensures forall r :: r in rows ==> RowRules(r, 0, expanded, collapsed)
  {
    SiblingsInOrder(tree, 0, expanded, collapsed);
    DisplayRules(tree, 0, expanded, collapsed);
    RenderItems(tree, 0, expanded, collapsed)
  }

  /** The ids of a sequence of entries, in order. */
  function Ids(items: seq<Item>): (ids: seq<string>)
    ensures |ids| == |items|
    ensures forall i :: 0 <= i < |items| ==> ids[i] == items[i].id
  {
    if items == [] then [] else [items[0].id] + Ids(items[1..])
  }

  /** The ids of a sequence of rows, in order. */
  function RowIds(rows: seq<Row>): (ids: seq<string>)
    ensures |ids| == |rows|
    ensures forall i :: 0 <= i < |rows| ==> ids[i] == rows[i].id
  {
    if rows == [] then [] else [rows[0].id] + RowIds(rows[1..])
  }

  /** The ids of the rows drawn at exactly the given level, in order. */
  function IdsAt(rows: seq<Row>, level: nat): seq<string> {
    if rows == [] then []
    else (if rows[0].level == level then [rows[0].id] else []) + IdsAt(rows[1..], level)
  }

  /** Every id of the tree in depth-first order, parents before their children. */
  function Preorder(items: seq<Item>): seq<string>
    decreases items
  {
    if items == [] then []
    else [items[0].id] + Preorder(items[0].children) + Preorder(items[1..])
  }

  /** The rules the row of every rendered entry obeys. */
  predicate RowRules(r: Row, level: nat, expanded: seq<string>, collapsed: bool) {
    && r.level >= level
    && (r.caption.Some? <==> (!collapsed || r.level > 0))
    && (r.badge.Some? ==> !collapsed && BadgeTruthy(r.badge))
    && (r.chevronShown ==> !collapsed)
    && (r.chevronRotated <==> r.chevronShown && r.id in expanded)
    && (collapsed ==> r.level == level)
  }

  lemma {:induction false} IdsAtConcat(a: seq<Row>, b: seq<Row>, level: nat)
    ensures IdsAt(a + b, level) == IdsAt(a, level) + IdsAt(b, level)
  {
    if a == [] {
      assert a + b == b;
    } else {
      assert (a + b)[1..] == a[1..] + b;
      IdsAtConcat(a[1..], b, level);
    }
  }

  lemma {:induction false} IdsAtDeeper(rows: seq<Row>, level: nat)
    requires forall k :: 0 <= k < |rows| ==> rows[k].level > level
    ensures IdsAt(rows, level) == []
  {
    if rows != [] {
      IdsAtDeeper(rows[1..], level);
    }
  }

  lemma {:induction false} RowIdsConcat(a: seq<Row>, b: seq<Row>)
    ensures RowIds(a + b) == RowIds(a) + RowIds(b)
  {
  }

  /** Two runs of siblings are drawn one after the other. */
  lemma {:induction false} RenderItemsConcat(a: seq<Item>, b: seq<Item>, level: nat, expanded: seq<string>, collapsed: bool)
    ensures RenderItems(a + b, level, expanded, collapsed)
      == RenderItems(a, level, expanded, collapsed) + RenderItems(b, level, expanded, collapsed)
  {
    if a == [] {
      assert a + b == b;
    } else {
      assert (a + b)[0] == a[0];
      assert (a + b)[1..] == a[1..] + b;
      RenderItemsConcat(a[1..], b, level, expanded, collapsed);
    }
  }

  /**
   * The rows drawn at the starting level are exactly the given entries, in
   * their original order; everything else is nested below them.
   */
  lemma {:induction false} SiblingsInOrder(items: seq<Item>, level: nat, expanded: seq<string>, collapsed: bool)
    ensures IdsAt(RenderItems(items, level, expanded, collapsed), level) == Ids(items)
    decreases items
  {
    if items != [] {
      var head := RenderItem(items[0], level, expanded, collapsed);
      var rest := RenderItems(items[1..], level, expanded, collapsed);
      IdsAtConcat(head, rest, level);
      IdsAtConcat([head[0]], head[1..], level);
      assert head == [head[0]] + head[1..];
      IdsAtDeeper(head[1..], level);
      SiblingsInOrder(items[1..], level, expanded, collapsed);
    }
  }

  /**
   * An entry's children are rendered exactly when it has children, is
   * expanded and the sidebar is not collapsed; they then follow the entry's
   * own row, in their original order, one level deeper. The chevron is
   * rotated exactly when the children are on screen. The entry's own row
   * shows its label unless this is a collapsed top-level row, and shows its
   * badge exactly when the sidebar is open and the badge is truthy.
   */
  lemma ChildrenShown(item: Item, level: nat, expanded: seq<string>, collapsed: bool)
    ensures var rows := RenderItem(item, level, expanded, collapsed);
      && (|rows| > 1 <==> HasChildren(item) && item.id in expanded && !collapsed)
      && (rows[0].chevronRotated <==> |rows| > 1)
      && (rows[0].chevronShown <==> !collapsed && HasChildren(item))
      && (|rows| > 1 ==> IdsAt(rows[1..], level + 1) == Ids(item.children))
      && rows[0].caption == (if !collapsed || level > 0 then Some(item.caption) else None)
      && (rows[0].badge.Some? <==> !collapsed && BadgeTruthy(item.badge))
      && (rows[0].badge.Some? ==> rows[0].badge == item.badge)
  {
    if ShowsChildren(item, expanded, collapsed) {
      SiblingsInOrder(item.children, level + 1, expanded, collapsed);
    }
  }

  /** A leaf never opens a nested list, whatever the expanded ids. */
  lemma LeafRendersOneRow(item: Item, level: nat, expanded: seq<string>, collapsed: bool)
    requires !HasChildren(item)
    ensures RenderItem(item, level, expanded, collapsed) == [RowOf(item, level, expanded, collapsed)]
  {
  }

  /** Every rendered row obeys the label, badge and chevron display rules. */
  lemma {:induction false} DisplayRules(items: seq<Item>, level: nat, expanded: seq<string>, collapsed: bool)
    ensures forall r :: r in RenderItems(items, level, expanded, collapsed) ==> RowRules(r, level, expanded, collapsed)
    decreases items
  {
    if items != [] {
      var item := items[0];
      var own := RowOf(item, level, expanded, collapsed);
      assert RowRules(own, level, expanded, collapsed);
      DisplayRules(items[1..], level, expanded, collapsed);
      if ShowsChildren(item, expanded, collapsed) {
        DisplayRules(item.children, level + 1, expanded, collapsed);
        forall r | r in RenderItems(item.children, level + 1, expanded, collapsed)
          ensures RowRules(r, level, expanded, collapsed)
        {
        }
      }
    }
  }

  /**
   * In the full navigation list a label is shown exactly when the sidebar is
   * not collapsed: the `level > 0` half of the label guard is never true on
   * a collapsed row, since no child row is drawn while collapsed.
   */
  lemma LabelShownIffNotCollapsed(tree: seq<Item>, expanded: seq<string>, collapsed: bool)
    ensures forall r :: r in Render(tree, expanded, collapsed) ==>
      (r.caption.Some? <==> !collapsed) && (collapsed ==> r.level == 0 && r.badge.None? && !r.chevronShown)
  {
    DisplayRules(tree, 0, expanded, collapsed);
  }

  /**
   * A collapsed sidebar draws one row per top-level entry and nothing else,
   * whatever is expanded.
   */
  lemma {:induction false} CollapsedOneRowPerItem(items: seq<Item>, level: nat, expanded: seq<string>)
    ensures var rows := RenderItems(items, level, expanded, true);
      |rows| == |items| && forall i :: 0 <= i < |items| ==> rows[i] == RowOf(items[i], level, expanded, true)
    decreases items
  {
    if items != [] {
      CollapsedOneRowPerItem(items[1..], level, expanded);
    }
  }

  /**
   * Collapsing hides every nested list but ignores the expanded ids
   * altogether: what the collapsed sidebar shows does not depend on them.
   */
  lemma CollapsedIgnoresExpansion(tree: seq<Item>, e1: seq<string>, e2: seq<string>)
    ensures Render(tree, e1, true) == Render(tree, e2, true)
  {
    CollapsedOneRowPerItem(tree, 0, e1);
    CollapsedOneRowPerItem(tree, 0, e2);
  }

  /**
   * Rendering depends on the expanded ids only through which ids of the tree
   * they contain: neither their order, nor repetitions, nor ids foreign to
   * the tree change what is drawn.
   */
  lemma {:induction false} RenderDependsOnMembership(items: seq<Item>, level: nat, e1: seq<string>, e2: seq<string>, collapsed: bool)
    requires forall id :: id in Preorder(items) ==> (id in e1 <==> id in e2)
    ensures RenderItems(items, level, e1, collapsed) == RenderItems(items, level, e2, collapsed)
    decreases items
  {
    if items != [] {
      var item := items[0];
      assert item.id in Preorder(items);
      assert forall id :: id in Preorder(item.children) ==> id in Preorder(items);
      assert forall id :: id in Preorder(items[1..]) ==> id in Preorder(items);
      RenderDependsOnMembership(item.children, level + 1, e1, e2, collapsed);
      RenderDependsOnMembership(items[1..], level, e1, e2, collapsed);
    }
  }

  /**
   * With every entry of the tree expanded and the sidebar open, every entry
   * is drawn, in depth-first order.
   */
  lemma {:induction false} FullyExpandedShowsPreorder(items: seq<Item>, level: nat, expanded: seq<string>)
    requires forall id :: id in Preorder(items) ==> id in expanded
    ensures RowIds(RenderItems(items, level, expanded, false)) == Preorder(items)
    decreases items
  {
    if items != [] {
      var item := items[0];
      assert item.id in Preorder(items);
      assert forall id :: id in Preorder(item.children) ==> id in Preorder(items);
      assert forall id :: id in Preorder(items[1..]) ==> id in Preorder(items);
      FullyExpandedShowsPreorder(item.children, level + 1, expanded);
      FullyExpandedShowsPreorder(items[1..], level, expanded);
      var own := [RowOf(item, level, expanded, false)];
      var nested := if ShowsChildren(item, expanded, false)
                    then RenderItems(item.children, level + 1, expanded, false) else [];
      assert RowIds(nested) == Preorder(item.children);
      RowIdsConcat(own, nested);
      RowIdsConcat(own + nested, RenderItems(items[1..], level, expanded, false));
    }
  }

  /**
   * With no top-level entry expanded, exactly the top-level entries are
   * drawn, one row each, in order.
   */
  lemma {:induction false} NothingExpandedShowsTopLevel(items: seq<Item>, level: nat, expanded: seq<string>, collapsed: bool)
    requires forall i :: 0 <= i < |items| ==> items[i].id !in expanded
    ensures var rows := RenderItems(items, level, expanded, collapsed);
      && |rows| == |items|
      && (forall i :: 0 <= i < |items| ==> rows[i] == RowOf(items[i], level, expanded, collapsed))
      && RowIds(rows) == Ids(items)
    decreases items
  {
    if items != [] {
      NothingExpandedShowsTopLevel(items[1..], level, expanded, collapsed);
    }
  }
}
