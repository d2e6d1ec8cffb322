# Sidebar navigation tree — a Dafny model

This project models the collapsible navigation tree of the InteGrow
dashboard's sidebar component (`frontend/renderer/components/ui/sidebar.tsx`).
The tree has two parts:

- **The expansion state.** A mounted sidebar keeps the list of expanded
  entry ids. It is empty at mount. `toggleExpanded(id)` filters the id out
  when it is present and appends it at the end otherwise. A click on an
  entry's row toggles that entry only when the entry has children.
- **The rendering.** `renderSidebarItem` is a pure recursive function of the
  entry, its nesting level, the expanded ids and the sidebar's `collapsed`
  display flag. It decides, for each entry, whether the label, the badge and
  the chevron are drawn, whether the chevron is rotated, and whether the
  children are drawn, one level deeper, in their order. The navigation list
  renders every static top-level entry at level 0.

Modules, one per concern:

- `Wrappers` (`wrappers.dfy`): the `Option` type used for the optional badge.
- `Navigation` (`navigation.dfy`): the `Item`, `Badge` and `Row` datatypes, the
  rendering functions `RowOf`, `RenderItem`, `RenderItems` and `Render`, and
  the lemmas about what is drawn.
- `Expansion` (`expansion.dfy`): `Without`, the filter; `Toggled`, the pure
  update passed to the state setter; `AfterToggles`, the state reached from
  mount by a run of toggles; and the lemmas about toggling.
- `Sidebar` (`sidebar.dfy`): the static entries, the class `SidebarState`
  holding `expandedItems: seq<string>` with its `Toggle` and `Click` methods,
  and the lemmas that connect toggles to rendering.

A rendered `Row` holds the entry id, the nesting level, the label text shown
(`caption`, `None` when hidden), the badge shown (`None` when hidden), whether
the chevron is drawn and whether it is rotated. In Dafny, `label` is a
reserved word, so the entry's label field is named `caption`.

The code's optional `children` list is modelled as a sequence that is empty
when the list is absent. The renderer treats the two alike: `hasChildren` is
falsy for both, and `children!` is reached only for a non-empty list. The
badge's JavaScript truthiness is modelled explicitly: a missing badge, the
empty string and the number 0 are falsy.

Two properties of the toggle deserve a note:

- Toggling an id that names no entry appends it when absent and filters it
  out when present. `ForeignToggleInvisible` proves that this is never
  visible: such an id never changes what is drawn.
- Two toggles of one id restore the members but not the order. A present id
  comes back at the end of the list (`ToggleTwice`, `ToggleTwiceReorders`).
  `ToggleTwiceRendersSame` proves that the rows drawn are restored exactly.

Two observations about the code follow from the proofs:

- The `level > 0` half of the label guard on line 119 is never true on a
  collapsed row of the navigation list. No child row is drawn while the
  sidebar is collapsed, so in the full list a label is shown exactly when
  the sidebar is not collapsed (`LabelShownIffNotCollapsed`).
- The click handler ignores `collapsed`. While the sidebar is collapsed,
  clicking a top-level entry with children still toggles it, with no effect
  on screen (`CollapsedIgnoresExpansion`). If that click expanded it, its
  children show up once the sidebar is opened again; if it closed it, they
  do not (`ChildrenShown`).

## Model

| member | source | states |
|---|---|---|
| `Navigation.Item` | frontend/renderer/components/ui/sidebar.tsx:25-32 | the entry shape: id, label, optional badge and children, a missing children list being the empty sequence; icon and link are not modelled |
| `Navigation.BadgeTruthy` | frontend/renderer/components/ui/sidebar.tsx:126 | the `item.badge &&` guard: a missing badge, the empty string and the number 0 are falsy; its effect on the drawn row is stated in `ChildrenShown` |
| `Navigation.HasChildren` | frontend/renderer/components/ui/sidebar.tsx:102 | the `hasChildren` test: an entry has children exactly when its children list is non-empty, a missing list counting as empty; its effect on the drawn rows is stated in `ChildrenShown` and `LeafRendersOneRow` |
| `Navigation.ShowsChildren` | frontend/renderer/components/ui/sidebar.tsx:147 | the guard in front of the nested list: the entry has children, its id is expanded and the sidebar is open; its effect is stated in `RenderItem` and `ChildrenShown` |
| `Navigation.RowOf` | frontend/renderer/components/ui/sidebar.tsx:105-145 | the row of one entry carries the entry's id and level, and any label or badge it shows is the entry's own; the guards on label, badge and chevron are proved in `ChildrenShown` and `DisplayRules` |
| `Navigation.Render` | frontend/renderer/components/ui/sidebar.tsx:214 | the rows at level 0 are exactly the top-level entries in their order, and every row obeys the display rules |
| `Navigation.RenderItem` | frontend/renderer/components/ui/sidebar.tsx:101-154 | an entry's rows start with its own row at the given level; every later row is strictly deeper; there is more than one row exactly when it has children, is expanded and the sidebar is not collapsed |
| `Navigation.RenderItems` | frontend/renderer/components/ui/sidebar.tsx:147-150 | siblings give at least one row each, none when there are none, and no row is shallower than the starting level |
| `Navigation.SiblingsInOrder` | frontend/renderer/components/ui/sidebar.tsx:147-150 | the rows at the starting level are exactly the sibling entries, in their original order |
| `Navigation.ChildrenShown` | frontend/renderer/components/ui/sidebar.tsx:101-151 | children are drawn if and only if the entry has children, its id is expanded and the sidebar is not collapsed; they then follow in their original order at level + 1; the chevron is drawn exactly when not collapsed and the entry has children, and rotated exactly when the children are on screen; the entry's own row shows its label except on a collapsed top-level row, and shows its badge exactly when the sidebar is open and the badge is truthy, that badge being the entry's own |
| `Navigation.LeafRendersOneRow` | frontend/renderer/components/ui/sidebar.tsx:102-103 | an entry without children is drawn as one row, whatever is expanded |
| `Navigation.DisplayRules` | frontend/renderer/components/ui/sidebar.tsx:119-143 | on every drawn row the label is shown if and only if not collapsed or level > 0; the badge is shown only when not collapsed and truthy; the chevron only when not collapsed; it is rotated if and only if it is drawn and the id is expanded; when collapsed every row is at the starting level |
| `Navigation.LabelShownIffNotCollapsed` | frontend/renderer/components/ui/sidebar.tsx:119-121 | in the full navigation list a label is shown if and only if the sidebar is not collapsed; a collapsed list has only level-0 rows without badge or chevron |
| `Navigation.CollapsedOneRowPerItem` | frontend/renderer/components/ui/sidebar.tsx:147 | a collapsed sidebar draws exactly one row per top-level entry, in order |
| `Navigation.CollapsedIgnoresExpansion` | frontend/renderer/components/ui/sidebar.tsx:124-150 | what a collapsed sidebar draws does not depend on the expanded ids at all |
| `Navigation.RenderDependsOnMembership` | frontend/renderer/components/ui/sidebar.tsx:103 | two lists of expanded ids that agree on the membership of every id of the tree draw the same rows |
| `Navigation.FullyExpandedShowsPreorder` | frontend/renderer/components/ui/sidebar.tsx:147-150 | with every entry expanded and the sidebar open, every entry is drawn, in depth-first order |
| `Navigation.NothingExpandedShowsTopLevel` | frontend/renderer/components/ui/sidebar.tsx:214 | with no top-level entry expanded, exactly the top-level entries are drawn, one unnested row each, in order |
| `Expansion.Without` | frontend/renderer/components/ui/sidebar.tsx:96 | the filtered list lacks the id, keeps every other member, is shorter when the id was present, is unchanged when it was absent, and keeps a list free of duplicates |
| `Expansion.Toggled` | frontend/renderer/components/ui/sidebar.tsx:94-98 | after the update the id is present if and only if it was absent; every other id keeps its membership; no duplicate is introduced |
| `Expansion.AfterToggles` | frontend/renderer/components/ui/sidebar.tsx:91-98 | the expanded ids after a run of toggles applied from the initial empty list; every such list is proved duplicate-free in `ReachableNoDuplicates` |
| `Expansion.WithoutDropsPosition` | frontend/renderer/components/ui/sidebar.tsx:96 | removing a present id from a duplicate-free list drops exactly its position and keeps the rest in order |
| `Expansion.ToggleOrder` | frontend/renderer/components/ui/sidebar.tsx:95-97 | an absent id is appended at the end; a present one is cut out of its position, the rest keeping their order |
| `Expansion.ToggleTwice` | frontend/renderer/components/ui/sidebar.tsx:95-97 | two toggles of one id restore the members; an absent id leaves the list exactly as it was; a present one moves to the end |
| `Expansion.ToggleTwiceReorders` | frontend/renderer/components/ui/sidebar.tsx:95-97 | a concrete case where two toggles change the order of the list |
| `Expansion.ReachableNoDuplicates` | frontend/renderer/components/ui/sidebar.tsx:91-98 | every list reached from the empty list at mount by toggles is free of duplicates |
| `Sidebar.SidebarState.constructor` | frontend/renderer/components/ui/sidebar.tsx:91 | at mount nothing is expanded |
| `Sidebar.SidebarState.Toggle` | frontend/renderer/components/ui/sidebar.tsx:93-99 | the state becomes its toggled copy: the id changes membership, no other id does, and no duplicate appears |
| `Sidebar.SidebarState.Click` | frontend/renderer/components/ui/sidebar.tsx:114 | a click toggles an entry that has children and leaves the state unchanged for an entry without children |
| `Sidebar.ToggleTwiceRendersSame` | frontend/renderer/components/ui/sidebar.tsx:94-103 | after two toggles of the same id exactly the same rows are drawn |
| `Sidebar.ForeignToggleInvisible` | frontend/renderer/components/ui/sidebar.tsx:93-103 | toggling an id that names no entry of the tree changes nothing on screen |
| `Sidebar.ToggleOutsideInvisible` | frontend/renderer/components/ui/sidebar.tsx:101-150 | toggling an id found in none of the siblings' subtrees leaves all their rows unchanged |
| `Sidebar.ToggleLeavesSiblings` | frontend/renderer/components/ui/sidebar.tsx:101-150 | toggling an entry whose id occurs in no other sibling's subtree leaves the rows of the siblings before it and after it unchanged, so only the entry's own rows can change |
| `Sidebar.SidebarItems` | frontend/renderer/components/ui/sidebar.tsx:34-87 | the seven static entries with their labels and "Soon" badges; only "requirements" has children; drawn at mount as stated by `MountShowsTopLevel` |
| `Sidebar.MountShowsTopLevel` | frontend/renderer/components/ui/sidebar.tsx:214 | at mount exactly seven rows are drawn: the static top-level entries, in order, all at level 0 |
| `Sidebar.RequirementsExpanded` | frontend/renderer/components/ui/sidebar.tsx:48-58 | the "requirements" entry alone draws one row; once expanded, its two children follow one level deeper, with the chevron rotated |

## Left out

- Icons, `href`, CSS class composition (`cn`): purely visual. This includes the indented compact style of child rows, the centred style of collapsed top-level rows and the badge colour chosen by `typeof badge`.
- The bare text "0": for a numeric badge 0, `item.badge && …` evaluates to 0, which React prints as text. The model records only the badge pill, which is not drawn in that case.
- Numeric badges are modelled as integers. Fractional values and NaN are not modelled; of these, only NaN would change truthiness.
- The header, the quick-action card, the disabled search box, the footer card and the collapse button: static markup. The `collapsed` flag and `onToggle` are owned by the parent, so `collapsed` is a parameter of the rendering.
- React keys, re-rendering and the asynchronous batching of the state setter. The model applies each update at once, which gives the same result here because the update is written as a function of the previous state.
- Duplicate ids in the tree. The code does not reject them, and the model does not assume their absence. Entries that share an id expand together, which follows from `ChildrenShown`: children are shown exactly when the entry's id is in the expanded list.
- The rest of the repository: the Electron window and single-instance lock, the layout, theme and fonts, the dashboard page's sample data, the metric card, the contact form and the backend schema and HTTP wiring. None of it is part of this model.
