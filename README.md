# Menu tree building and active-item marking

A Dafny model of the in-memory logic of a Django menu application
(`menu_app`). A menu is a flat list of `MenuItem` records. Each record points
at its parent by id, carries a sibling `order`, and names its link target by a
raw URL, a named route, or both. The template tag loads the list, then:

1. builds a tree from it (`_build_tree`);
2. marks the tree for the current request (`_mark_active_and_expanded`):
   - a node that matches the request becomes *active*;
   - every ancestor of a matching node becomes *expanded*;
   - the last matching node in pre-order is expanded, together with its
     direct children.

The models provide the label of a menu and the href of an item.

Modules, one per concern:

- `Wrappers`: the `Option` type.
- `MenuModels`: the `Menu` and `MenuItem` records, `Menu.__str__` and
  `MenuItem.get_url`.
- `StableSort`: a key-based stable insertion sort. It is the model of
  Python's `list.sort(key=...)`, proved sorted, a permutation and stable.
- `Forests`: the tree in arena form, plus its pre-order walk.
  - Node `i` is item `i`. `roots` lists the top-level nodes and `children[p]`
    the nodes under `p`.
  - The walk carries each node's ancestor chain, as the marking walk does.
  - A valid forest lets no node sit in two lists. Every ancestor chain is
    then duplicate-free and no longer than the number of items, so the walk
    terminates whatever the parent ids are. Nodes on a parent cycle are
    simply never reached; `TreeBuilder.SelfParentedNeverReached` proves
    this for an item that names itself as its parent.
- `TreeBuilder`: `_build_tree`, as imperative methods over sequences. It runs
  in three passes: index by id, place, then sort the reached children lists.
  Completeness is proved both ways: the walk reaches every item, each
  exactly once, exactly when no item is its own ancestor through resolved
  parents (`RankedAllReached`, `ReachedAllRanked`). The built tree reaches
  the same nodes as the placed one.
- `ActiveMarker`: `_mark_active_and_expanded`, as methods over two `bool`
  arrays indexed by node. Each method is proved against `ActiveAfter` and
  `ExpandedAfter`, which define the final flags from the walk. The remaining
  lemmas state those flags in terms of the tree: paths from a root, matches,
  and the last match.

Points where the code and its docstrings differ (the model follows the code):

- **Every match is active.** The docstring of `_mark_active_and_expanded`
  speaks of "the active item" and of a single active node. The code sets
  `active` on every node that matches, and `active_node` ends as the *last*
  match in pre-order. Only that last match, with its direct children, gets
  the final expansion. `ActiveMarker.BothMatchesActive` shows two nested
  items that both end active.
- **A match is expanded only in two cases.** A node that matches but is
  neither the last match nor an ancestor of another match is active but not
  expanded (`ExpandedIff`).
- **The view name is compared.** The docstring mentions the resolved
  `url_name`, but the code compares `named_url` with `match.view_name`. The
  model takes the resolved view name as `Request.view`.
- **Duplicate ids: the last item wins.** When several loaded items share an
  id, the id index keeps the last one, as the dictionary assignment does.
  Children naming that id hang under that last item only.

## Model

| member | source | states |
|---|---|---|
| `MenuModels.MenuLabel` | uptrader_test/menu_app/models.py:14-15 | the label is the title when the title is non-blank, otherwise the name; it is empty only when both are |
| `MenuModels.LinkUrl` | uptrader_test/menu_app/models.py:42-57 | three-tier fallback: the reversed named route when the name is non-blank and reverses; else the raw URL when non-blank; else "#" |
| `MenuModels.LinkUrlIgnoresRawUrl` | uptrader_test/menu_app/models.py:49-51 | once the named route reverses, the raw URL has no influence on the href |
| `MenuModels.LinkUrlIsOneOfThree` | uptrader_test/menu_app/models.py:49-57 | the href is always the reversed route, the raw URL or "#", and is never empty when reversal never yields "" |
| `StableSort.InsertByKey` | uptrader_test/menu_app/templatetags/menu_tags.py:38 | inserting an element adds exactly that element to the multiset of the list |
| `StableSort.SortByKeyIsStableSort` | uptrader_test/menu_app/templatetags/menu_tags.py:38 | sorting by `order` yields a list ordered by key, a permutation of the input, duplicate-free when the input is, and for every key value the elements carrying it keep their input order (stability) |
| `Forests.ReachedIff` | uptrader_test/menu_app/templatetags/menu_tags.py:92-96 | the walk from the roots reaches a node exactly when the node lies on a downward path from a root |
| `Forests.ChainThroughHolder` | uptrader_test/menu_app/templatetags/menu_tags.py:92-93 | a node held in a parent's children list is reached only directly below that parent, and never lies on its own ancestor chain |
| `Forests.WalkVisitsOnce` | uptrader_test/menu_app/templatetags/menu_tags.py:92-96 | the pre-order walk from the roots passes through no node twice |
| `Forests.SameMembersSameReach` | uptrader_test/menu_app/templatetags/menu_tags.py:37-40 | reordering children lists without changing their members leaves the set of reached nodes unchanged |
| `TreeBuilder.IdIndexLast` | uptrader_test/menu_app/templatetags/menu_tags.py:20-22 | after indexing, an id is present iff some item carries it, and it maps to the last such item |
| `TreeBuilder.ResolvedParent` | uptrader_test/menu_app/templatetags/menu_tags.py:26-31 | a parent is found only for an item whose parent id is carried by a loaded item, and then that item carries it; none is found iff the parent id is null or unknown |
| `TreeBuilder.PlacedUnderSpec` | uptrader_test/menu_app/templatetags/menu_tags.py:25-34 | each list built by the placement pass holds exactly the items resolved to that holder, in input order, each once |
| `TreeBuilder.Placement` | uptrader_test/menu_app/templatetags/menu_tags.py:25-34 | the placed tree has one children list per item and puts no item in two lists |
| `TreeBuilder.RootIff` | uptrader_test/menu_app/templatetags/menu_tags.py:26-34 | an item is a root iff its parent id is null or names no loaded item; an empty input gives no roots |
| `TreeBuilder.ChildIff` | uptrader_test/menu_app/templatetags/menu_tags.py:29-31 | an item hangs under `p` iff its parent id is `p`'s id and `p` is the last item carrying that id |
| `TreeBuilder.PlacedExactlyOnce` | uptrader_test/menu_app/templatetags/menu_tags.py:25-34 | every item is either a root or a child, never both and never neither, and it is a child of at most one parent |
| `TreeBuilder.SelfParentedNeverReached` | uptrader_test/menu_app/templatetags/menu_tags.py:28-31 | an item whose parent id is its own id, with no later item sharing that id, is appended to its own children: it is not a root and the walk never reaches it |
| `TreeBuilder.RankedChain` | uptrader_test/menu_app/templatetags/menu_tags.py:25-34 | when a rank grows from every item's resolved parent to the item, every item lies on a downward path from a root |
| `TreeBuilder.RankedAllReached` | uptrader_test/menu_app/templatetags/menu_tags.py:25-34 | completeness: with no cycle among resolved parents (a rank exists), the walk reaches every item, and each exactly once |
| `TreeBuilder.ReachedAllRanked` | uptrader_test/menu_app/templatetags/menu_tags.py:25-34 | the converse: when the walk reaches every item, depth in the placed tree is such a rank, so completeness holds exactly when there is no cycle |
| `TreeBuilder.ListsInInputOrder` | uptrader_test/menu_app/templatetags/menu_tags.py:25-34 | before sorting, the roots and every children list are in input order |
| `TreeBuilder.IndexItems` | uptrader_test/menu_app/templatetags/menu_tags.py:20-22 | the first pass gives every item an empty children list and builds the last-wins id index |
| `TreeBuilder.PlaceItems` | uptrader_test/menu_app/templatetags/menu_tags.py:25-34 | the second pass builds exactly the placed tree: the roots and each children list, in input order |
| `TreeBuilder.SortChildren` | uptrader_test/menu_app/templatetags/menu_tags.py:37-40 | sorting from a node sorts by `order` the children list of every node of its subtree, and touches no other list |
| `TreeBuilder.SortSiblings` | uptrader_test/menu_app/templatetags/menu_tags.py:39-43 | sorting from each of a list of siblings sorts exactly the children lists of their subtrees |
| `TreeBuilder.SortedPlacement` | uptrader_test/menu_app/templatetags/menu_tags.py:37-43 | sorting the reached lists keeps the forest valid and reaching the same nodes; in the result each reached list is the stable sort by `order` of its placed list and every other list is as placed |
| `TreeBuilder.BuildTree` | uptrader_test/menu_app/templatetags/menu_tags.py:10-45 | the result is a valid forest with the placed roots in input order; it reaches exactly the nodes the placed tree reaches; each node it reaches has its placed children list stably sorted by `order`, so sorted by `order`; every other node keeps its placed list |
| `ActiveMarker.Matches` | uptrader_test/menu_app/templatetags/menu_tags.py:74-82 | an item matches only through its named route equal to the view or its raw URL equal to the path; a non-blank named route equal to the view, or a non-blank raw URL equal to the path, always matches; an item with neither never matches |
| `ActiveMarker.LastHitIsLast` | uptrader_test/menu_app/templatetags/menu_tags.py:86 | the node kept as active is a match with no match after it in the walk; none is kept iff nothing matches |
| `ActiveMarker.LastHitConcat` | uptrader_test/menu_app/templatetags/menu_tags.py:86 | a later match overwrites the remembered active node |
| `ActiveMarker.MarkSubtree` | uptrader_test/menu_app/templatetags/menu_tags.py:68-93 | marking a subtree clears and re-marks each of its nodes: active iff it matches, expanded iff an ancestor of a match inside it; the ancestors above it become expanded if something inside matched and otherwise keep their flag; the active node after it is its last match, else the one before; nothing else changes |
| `ActiveMarker.MarkSiblings` | uptrader_test/menu_app/templatetags/menu_tags.py:92-96 | marking a list of siblings in order is marking the concatenation of their subtree walks |
| `ActiveMarker.ExpandWithChildren` | uptrader_test/menu_app/templatetags/menu_tags.py:99-102 | the final step sets expanded on the active node and each of its direct children, and leaves every other flag as it was |
| `ActiveMarker.MarkActiveAndExpanded` | uptrader_test/menu_app/templatetags/menu_tags.py:48-102 | after marking, the flags are exactly `ActiveAfter` and `ExpandedAfter` of the flags before |
| `ActiveMarker.ActiveIffMatches` | uptrader_test/menu_app/templatetags/menu_tags.py:84-85 | every node reachable from a root is active after marking iff it matches the request, so all matches are active |
| `ActiveMarker.NestedSamePathTree` | uptrader_test/menu_app/templatetags/menu_tags.py:25-34 | for two items on the same raw URL, the second naming the first as parent, the first is a root and the second its child |
| `ActiveMarker.BothMatchesActive` | uptrader_test/menu_app/templatetags/menu_tags.py:84-86 | in that tree, both items end active for a request on that path, whatever their flags before: marking does not stop at the first match |
| `ActiveMarker.ExpandedIff` | uptrader_test/menu_app/templatetags/menu_tags.py:84-102 | a reachable node is expanded iff it is a strict ancestor of some match, or the last match in pre-order, or a direct child of that match |
| `ActiveMarker.AncestorsOfMatchExpanded` | uptrader_test/menu_app/templatetags/menu_tags.py:84-89 | every node on the path from a root down to a match, the match excluded, is expanded |
| `ActiveMarker.LastMatchExpanded` | uptrader_test/menu_app/templatetags/menu_tags.py:99-102 | the last match in pre-order is expanded, and so is each of its direct children |
| `ActiveMarker.LastHitReached` | uptrader_test/menu_app/templatetags/menu_tags.py:99-102 | the last match and its children are nodes the walk reached |
| `ActiveMarker.NoMatchNoFlags` | uptrader_test/menu_app/templatetags/menu_tags.py:66-102 | when no reachable node matches, there is no active node and no reachable node is active or expanded |
| `ActiveMarker.MarkingForgetsPriorFlags` | uptrader_test/menu_app/templatetags/menu_tags.py:70-71 | the flags marking leaves on a reachable node do not depend on the flags it had before |
| `ActiveMarker.MarkingIdempotent` | uptrader_test/menu_app/templatetags/menu_tags.py:48-102 | marking twice for the same request gives the same flags as marking once |

## Left out

- `draw_menu`, the template and the database query are not modelled. The
  query loads a menu's items in `parent_id, order` order, and the rendering
  is template plumbing. The model starts from the loaded item list and ends
  at the marked tree.
- URL resolution and reversal come from Django, so they are inputs.
  - `resolve(request.path_info).view_name` is `Request.view`; `None` stands
    for a path that does not resolve.
  - `reverse(named_url)` is a function parameter of `LinkUrl` that returns
    `None` when reversal fails.
- The `children_map` dictionary built in the first pass of `_build_tree` is
  never read, so it is not modelled.
- `MenuItem.__str__` returns the title field unchanged. It is not modelled,
  as there is nothing to state about it.
- `children` is modelled as an ordinary list attribute of each item, which
  is how `_build_tree` and the marking walk use it. In `models.py` the
  `parent` foreign key declares `related_name='children'`, so on a real
  model instance `children` is Django's reverse-relation accessor. On
  current Django versions, the assignment `item.children = []` at
  `menu_tags.py` line 21 would then raise `TypeError`, as direct assignment
  to the reverse side of a relation is refused. Even without that error,
  `append` and `sort` would act on a related manager, not a list. The model
  does not capture this collision. It describes the in-memory behaviour the
  code is written for.
- `admin.py` and the field definitions (lengths, blank/null options) are not
  modelled. A blank or null URL field is the empty string.
- `MenuItem.menu`, `title` and `open_in_new_tab` are not used by the
  modelled logic. The last two are kept as fields only.
- Identity and in-place mutation of item objects are modelled by node index:
  - The tree is a `Forest` value whose children lists are replaced, not
    Python lists mutated in place.
  - Every entry of the input list is a distinct record.
  - The `children`, `active` and `expanded` attributes become the forest's
    lists and two arrays indexed by node.
  - A node the walk never reaches keeps its earlier flags, where Python
    leaves those attributes unset.
- Python's Timsort is modelled only by what it guarantees: a stable sort by
  key (`SortByKey`, an insertion sort).
- `StableSort.SortByKeyIsStableSort` states that the sort orders the list by
  key, permutes it and keeps equal keys in input order. It does not state
  that the result is the unique such list.
- The ghost ancestor chain that bounds the recursion of `SortChildren` is
  only a proof device. The marking walk's `parent_chain` is real and is
  modelled as the `ch` argument.
