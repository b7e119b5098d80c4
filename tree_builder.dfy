/**
 * Building the menu tree from the flat list of items loaded for one menu.
 * Items are indexed by id (a later item with the same id replaces an earlier
 * one, as a dictionary assignment does), each item is appended either to the
 * root list or to the children of the item its parent id resolves to (an
 * unresolved parent id makes it a root), and then every children list reached
 * from a root is stably sorted by `order`. The root list keeps input order.
 */
module TreeBuilder {
  import opened Wrappers
  import opened MenuModels
  import opened StableSort
  import opened Forests

  /** The id index after the first `k` items: each id maps to the last of them carrying it. */
  function IdIndex(items: seq<MenuItem>, k: nat): map<int, nat>
    requires k <= |items|
  {
    if k == 0 then map[] else IdIndex(items, k - 1)[items[k - 1].id := k - 1]
  }

  lemma {:induction false} IdIndexLast(items: seq<MenuItem>, k: nat, id: int)
    requires k <= |items|
    ensures id in IdIndex(items, k) <==> exists j :: 0 <= j < k && items[j].id == id
    ensures id in IdIndex(items, k) ==>
      var v := IdIndex(items, k)[id];
      v < k && items[v].id == id && forall j :: v < j < k ==> items[j].id != id
  {
    if k > 0 {
      IdIndexLast(items, k - 1, id);
    }
  }

  /** The index of the item that `items[i]`'s parent id names, if any item carries that id. */
  function ResolvedParent(items: seq<MenuItem>, i: nat): (r: Option<nat>)
    requires i < |items|
    ensures r.Some? ==> r.value < |items| && items[i].parentId == Some(items[r.value].id)
    ensures r.None? <==> items[i].parentId.None? || forall j :: 0 <= j < |items| ==> Some(items[j].id) != items[i].parentId
  {
    match items[i].parentId
    case None => None
    case Some(pid) =>
      IdIndexLast(items, |items|, pid);
      if pid in IdIndex(items, |items|) then Some(IdIndex(items, |items|)[pid]) else None
  }

  /** The items among the first `k` whose resolved parent is `holder` (`None`: the roots), in input order. */
  function PlacedUnder(items: seq<MenuItem>, holder: Option<nat>, k: nat): seq<nat>
    requires k <= |items|
  {
    if k == 0 then []
    else PlacedUnder(items, holder, k - 1) + (if ResolvedParent(items, k - 1) == holder then [k - 1] else [])
  }

  /** `s` is strictly increasing, i.e. duplicate-free and in input order. */
  ghost predicate Increasing(s: seq<nat>) {
    forall i, j :: 0 <= i < j < |s| ==> s[i] < s[j]
  }

  /** A placement list holds exactly the items placed under `holder`, in input order, each once. */
  lemma {:induction false} PlacedUnderSpec(items: seq<MenuItem>, holder: Option<nat>, k: nat)
    requires k <= |items|
    ensures forall i: nat :: i in PlacedUnder(items, holder, k) <==> i < k && ResolvedParent(items, i) == holder
    ensures Increasing(PlacedUnder(items, holder, k)) && NoDup(PlacedUnder(items, holder, k))
  {
    if k > 0 {
      PlacedUnderSpec(items, holder, k - 1);
      var s := PlacedUnder(items, holder, k - 1);
      var t: seq<nat> := if ResolvedParent(items, k - 1) == holder then [k - 1] else [];
      assert PlacedUnder(items, holder, k) == s + t;
      AppendAbove(s, t, k - 1);
    }
  }

  /** Appending to an increasing list at most one element above all of its elements keeps it increasing. */
  lemma AppendAbove(s: seq<nat>, t: seq<nat>, m: nat)
    requires Increasing(s) && (forall i: nat :: i in s ==> i < m) && (t == [] || t == [m])
    ensures Increasing(s + t) && NoDup(s + t)
    ensures forall i: nat :: i in s + t <==> i in s || i in t
  {
    assert forall i :: 0 <= i < |s| ==> s[i] in s;
  }

  lemma PlacedUnderAll(items: seq<MenuItem>)
    ensures forall holder: Option<nat> {:trigger PlacedUnder(items, holder, |items|)} ::
      && Increasing(PlacedUnder(items, holder, |items|))
      && NoDup(PlacedUnder(items, holder, |items|))
      && forall i: nat :: i in PlacedUnder(items, holder, |items|) <==> i < |items| && ResolvedParent(items, i) == holder
  {
    forall holder: Option<nat> ensures
      && Increasing(PlacedUnder(items, holder, |items|))
      && NoDup(PlacedUnder(items, holder, |items|))
      && forall i: nat :: i in PlacedUnder(items, holder, |items|) <==> i < |items| && ResolvedParent(items, i) == holder
    {
      PlacedUnderSpec(items, holder, |items|);
    }
  }

  /** The forest right after the placement pass, before any sorting; every node is in at most one list, once. */
  function Placement(items: seq<MenuItem>): (f: Forest)
    ensures f.Valid() && |f.children| == |items|
  {
    PlacedUnderAll(items);
    Forest(PlacedUnder(items, None, |items|), seq(|items|, p requires 0 <= p < |items| => PlacedUnder(items, Some(p), |items|)))
  }

  /** An item is a root iff it has no parent id or no loaded item carries its parent id; no input, no roots. */
  lemma RootIff(items: seq<MenuItem>, i: nat)
    requires i < |items|
    ensures i in Placement(items).roots <==>
      items[i].parentId.None? || forall j :: 0 <= j < |items| ==> Some(items[j].id) != items[i].parentId
    ensures items == [] ==> Placement(items).roots == []
  {
    PlacedUnderSpec(items, None, |items|);
  }

  /**
   * An item sits under `p` iff its parent id is `p`'s id and `p` is the last
   * item carrying that id.
   */
  lemma ChildIff(items: seq<MenuItem>, p: nat, c: nat)
    requires p < |items| && c < |items|
    ensures c in Placement(items).children[p] <==>
      items[c].parentId == Some(items[p].id) && forall j :: p < j < |items| ==> items[j].id != items[p].id
  {
    PlacedUnderSpec(items, Some(p), |items|);
    IdIndexLast(items, |items|, items[p].id);
    if items[c].parentId == Some(items[p].id) {
      IdIndexLast(items, |items|, items[p].id);
    }
  }

  /** Nothing is dropped and nothing is duplicated: every item is in exactly one list, once. */
  lemma PlacedExactlyOnce(items: seq<MenuItem>, i: nat)
    requires i < |items|
    ensures var f := Placement(items);
      (i in f.roots) != (exists p :: 0 <= p < |items| && i in f.children[p])
    ensures var f := Placement(items);
      forall p, q :: 0 <= p < |items| && 0 <= q < |items| && i in f.children[p] && i in f.children[q] ==> p == q
  {
    PlacedUnderAll(items);
    var r := ResolvedParent(items, i);
    if r.Some? {
      assert i in Placement(items).children[r.value];
    }
  }

  /**
   * An item whose parent id is its own id, and which no later item shadows,
   * is placed under itself: it is not a root and the walk never reaches it.
   */
  lemma SelfParentedNeverReached(items: seq<MenuItem>, i: nat)
    requires i < |items| && items[i].parentId == Some(items[i].id)
    requires forall j :: i < j < |items| ==> items[j].id != items[i].id
    ensures var f := Placement(items);
      i in f.children[i] && i !in f.roots && !Reached(f, i)
  {
    var f := Placement(items);
    ChildIff(items, i, i);
    ReachedIff(f, i);
    forall anc ensures !ValidChain(f, anc + [i]) {
      ChainThroughHolder(f, anc, i, i);
      if anc != [] {
        assert anc[|anc| - 1] in anc;
      }
    }
  }

  /**
   * The resolved-parent relation has no cycle, witnessed by a rank that grows
   * from every item's resolved parent to the item.
   */
  ghost predicate ParentsRanked(items: seq<MenuItem>, rk: nat -> nat) {
    forall c :: 0 <= c < |items| && ResolvedParent(items, c).Some? ==> rk(ResolvedParent(items, c).value) < rk(c)
  }

  /** With ranked parents, every item lies on a downward path from a root of the placed tree. */
  lemma {:induction false} RankedChain(items: seq<MenuItem>, rk: nat -> nat, i: nat)
    requires i < |items| && ParentsRanked(items, rk)
    ensures exists anc :: ValidChain(Placement(items), anc + [i])
    decreases rk(i)
  {
    var f := Placement(items);
    PlacedUnderAll(items);
    match ResolvedParent(items, i)
    case None =>
      assert i in f.roots;
      assert ValidChain(f, [] + [i]);
    case Some(p) =>
      RankedChain(items, rk, p);
      var anc :| ValidChain(f, anc + [p]);
      assert i in f.children[p];
      assert (anc + [p])[|anc + [p]| - 1] == p;
      ChainExtend(f, anc + [p], i);
  }

  /**
   * Completeness: when no item is its own ancestor through resolved parents,
   * the walk of the placed tree reaches every item, and each exactly once.
   */
  lemma RankedAllReached(items: seq<MenuItem>, rk: nat -> nat)
    requires ParentsRanked(items, rk)
    ensures forall i :: 0 <= i < |items| ==> Reached(Placement(items), i)
    ensures OnceEach(Visits(Placement(items)))
  {
    var f := Placement(items);
    forall i | 0 <= i < |items| ensures Reached(f, i) {
      RankedChain(items, rk, i);
      ReachedIff(f, i);
    }
    WalkVisitsOnce(f);
  }

  /** The chain of ancestors of a node that has one. */
  ghost function ChainOf(f: Forest, x: nat): (anc: seq<nat>)
    requires f.Valid() && exists anc :: ValidChain(f, anc + [x])
    ensures ValidChain(f, anc + [x])
  {
    var anc :| ValidChain(f, anc + [x]); anc
  }

  /** The depth of a node: the length of its chain of ancestors, 0 when it has none. */
  ghost function Depth(f: Forest, x: nat): nat
    requires f.Valid()
  {
    if exists anc :: ValidChain(f, anc + [x]) then |ChainOf(f, x)| else 0
  }

  /** When the walk reaches every item, depth in the placed tree ranks the resolved parents. */
  lemma ReachedAllRanked(items: seq<MenuItem>)
    requires forall i :: 0 <= i < |items| ==> Reached(Placement(items), i)
    ensures ParentsRanked(items, (x: nat) => Depth(Placement(items), x))
  {
    var f := Placement(items);
    PlacedUnderAll(items);
    forall c | 0 <= c < |items| && ResolvedParent(items, c).Some?
      ensures Depth(f, ResolvedParent(items, c).value) < Depth(f, c)
    {
      var p := ResolvedParent(items, c).value;
      assert c in f.children[p];
      ReachedIff(f, c);
      var anc := ChainOf(f, c);
      ChainThroughHolder(f, anc, c, p);
      var up := anc[..|anc| - 1];
      assert anc == up + [p];
      ChainPrefix(f, anc + [c], |anc|);
      assert (anc + [c])[..|anc|] == up + [p];
      ChainUnique(f, ChainOf(f, p), up, p);
    }
  }

  /** Before sorting, the roots and every children list are in input order. */
  lemma ListsInInputOrder(items: seq<MenuItem>)
    ensures Increasing(Placement(items).roots)
    ensures forall p :: 0 <= p < |items| ==> Increasing(Placement(items).children[p])
  {
    PlacedUnderAll(items);
  }

  /** The sort key: the item's `order` field. */
  function OrderKey(items: seq<MenuItem>): nat -> int {
    (i: nat) => if i < |items| then items[i].order else 0
  }

  /** The children list of every node of `sub` is sorted or, outside `sub`, as it was. */
  ghost predicate SortedOn(items: seq<MenuItem>, placed: Forest, before: seq<seq<nat>>, after: seq<seq<nat>>, sub: set<nat>)
    requires |placed.children| == |before| == |after|
  {
    forall x :: 0 <= x < |before| ==>
      after[x] == if x in sub then SortByKey(placed.children[x], OrderKey(items)) else before[x]
  }

  /** Sorting a second disjoint set of subtrees after a first one sorts their union. */
  lemma SortedOnUnion(items: seq<MenuItem>, placed: Forest, a: seq<seq<nat>>, b: seq<seq<nat>>, c: seq<seq<nat>>, s: set<nat>, t: set<nat>)
    requires |placed.children| == |a| == |b| == |c|
    requires SortedOn(items, placed, a, b, s) && SortedOn(items, placed, b, c, t)
    ensures SortedOn(items, placed, a, c, s + t)
  {
  }

  /** A node of `all` outside the sorted set `done` still has its placed children list. */
  lemma NotYetSorted(items: seq<MenuItem>, placed: Forest, children: seq<seq<nat>>, sorted: seq<seq<nat>>, done: set<nat>, next: set<nat>, all: set<nat>)
    requires |placed.children| == |children| == |sorted|
    requires SortedOn(items, placed, children, sorted, done)
    requires next <= all && done !! next
    requires forall x :: x in all ==> x < |children| && children[x] == placed.children[x]
    ensures forall x :: x in next ==> x < |sorted| && sorted[x] == placed.children[x]
  {
  }

  /** Sorting `node`'s own list sorts `{node}` and leaves the rest of its subtree as placed. */
  lemma SortedOwnList(items: seq<MenuItem>, placed: Forest, children: seq<seq<nat>>, node: nat, sub: set<nat>, below: set<nat>)
    requires |placed.children| == |children| && node < |children|
    requires node in sub && below <= sub && node !in below
    requires forall x :: x in sub ==> x < |children| && children[x] == placed.children[x]
    ensures var sorted := children[node := SortByKey(children[node], OrderKey(items))];
      SortedOn(items, placed, children, sorted, {node}) &&
      forall x :: x in below ==> x < |sorted| && sorted[x] == placed.children[x]
  {
  }

  /**
   * `sort_children`: sorts `node`'s children list in place by `order`, then
   * sorts the subtree of each child in the new order. `placed` is the forest
   * as built before any sorting and `ch` the ghost chain of `node`'s ancestors,
   * which bounds the recursion.
   */
  method SortChildren(items: seq<MenuItem>, children: seq<seq<nat>>, ghost placed: Forest, node: nat, ghost ch: seq<nat>)
    returns (sorted: seq<seq<nat>>)
    requires placed.Valid() && |placed.children| == |items| == |children|
    requires ValidChain(placed, ch + [node])
    requires forall x :: x in Nodes(VisitsFrom(placed, ch, node)) ==> children[x] == placed.children[x]
    ensures |sorted| == |children|
    ensures SortedOn(items, placed, children, sorted, Nodes(VisitsFrom(placed, ch, node)))
    decreases |placed.children| - |ch|, 1
  {
    NodesOfFrom(placed, ch, node);
    NotBelowItself(placed, ch, node);
    ChainBound(placed, ch + [node]);
    ghost var up := ch + [node];
    ghost var below := Nodes(VisitsOf(placed, up, placed.children[node]));
    sorted := children[node := SortByKey(children[node], OrderKey(items))];
    var cs := sorted[node];
    SortByKeyIsStableSort(placed.children[node], OrderKey(items));
    assert forall c :: c in cs <==> c in placed.children[node] by {
      assert forall c :: c in cs <==> c in multiset(cs);
      assert forall c :: c in placed.children[node] <==> c in multiset(placed.children[node]);
    }
    SameSiblingsSameNodes(placed, up, placed.children[node], cs);
    SortedOwnList(items, placed, children, node, Nodes(VisitsFrom(placed, ch, node)), below);
    ghost var mid := sorted;
    sorted := SortSiblings(items, sorted, placed, up, cs);
    SortedOnUnion(items, placed, children, mid, sorted, {node}, below);
  }

  /**
   * The loops `for c in node.children: sort_children(c)` and
   * `for r in roots: sort_children(r)`: sorts the subtree of each of the
   * sibling nodes `cs`, whose ancestor chain is `up`, in list order.
   */
  method SortSiblings(items: seq<MenuItem>, children: seq<seq<nat>>, ghost placed: Forest, ghost up: seq<nat>, cs: seq<nat>)
    returns (sorted: seq<seq<nat>>)
    requires placed.Valid() && |placed.children| == |items| == |children|
    requires NoDup(cs) && forall c :: c in cs ==> ValidChain(placed, up + [c])
    requires forall x :: x in Nodes(VisitsOf(placed, up, cs)) ==> children[x] == placed.children[x]
    ensures |sorted| == |children|
    ensures SortedOn(items, placed, children, sorted, Nodes(VisitsOf(placed, up, cs)))
    decreases |placed.children| + 1 - |up|, 0
  {
    sorted := children;
    ghost var done: set<nat> := {};
    ghost var all := Nodes(VisitsOf(placed, up, cs));
    for k := 0 to |cs|
      invariant |sorted| == |children|
      invariant done == Nodes(VisitsOf(placed, up, cs[..k]))
      invariant SortedOn(items, placed, children, sorted, done)
    {
      assert cs[k] in cs;
      ChainBound(placed, up + [cs[k]]);
      ghost var next := Nodes(VisitsFrom(placed, up, cs[k]));
      SiblingsDisjoint(placed, up, cs, k);
      NodesOfOne(placed, up, cs, k);
      NotYetSorted(items, placed, children, sorted, done, next, all);
      ghost var before := sorted;
      sorted := SortChildren(items, sorted, placed, cs[k], up);
      SortedOnUnion(items, placed, children, before, sorted, done, next);
      NodesOfSnoc(placed, up, cs, k);
      done := done + next;
    }
    assert cs[..|cs|] == cs;
  }

  /**
   * The first pass of `_build_tree`: gives every item an empty children list
   * and indexes the items by id, a later item replacing an earlier one.
   */
  method IndexItems(items: seq<MenuItem>) returns (nodes: map<int, nat>, children: seq<seq<nat>>)
    ensures nodes == IdIndex(items, |items|)
    ensures |children| == |items| && forall p :: 0 <= p < |items| ==> children[p] == []
  {
    nodes := map[];
    children := [];
    for i := 0 to |items|
      invariant nodes == IdIndex(items, i)
      invariant |children| == i && forall p :: 0 <= p < i ==> children[p] == []
    {
      children := children + [[]];
      nodes := nodes[items[i].id := i];
    }
  }

  /**
   * The second pass of `_build_tree`: appends each item, in input order, to
   * the children of the item its parent id names, or to the roots when it has
   * no parent id or the id is not in the index.
   */
  method PlaceItems(items: seq<MenuItem>, nodes: map<int, nat>, empty: seq<seq<nat>>)
    returns (roots: seq<nat>, children: seq<seq<nat>>)
    requires nodes == IdIndex(items, |items|)
    requires |empty| == |items| && forall p :: 0 <= p < |items| ==> empty[p] == []
    ensures Forest(roots, children) == Placement(items)
  {
    var n := |items|;
    roots := [];
    children := empty;
    for i := 0 to n
      invariant |children| == n
      invariant roots == PlacedUnder(items, None, i)
      invariant forall p :: 0 <= p < n ==> children[p] == PlacedUnder(items, Some(p), i)
    {
      match items[i].parentId {
        case None =>
          roots := roots + [i];
        case Some(pid) =>
          IdIndexLast(items, n, pid);
          if pid in nodes {
            var p := nodes[pid];
            children := children[p := children[p] + [i]];
          } else {
            roots := roots + [i];
          }
      }
    }
  }

  /**
   * Sorting the lists reached in the placed tree keeps the forest valid and
   * reaching the same nodes, so those lists are the ones reached in the result.
   */
  lemma SortedPlacement(items: seq<MenuItem>, children: seq<seq<nat>>)
    requires |children| == |items|
    requires SortedOn(items, Placement(items), Placement(items).children, children, Nodes(Visits(Placement(items))))
    ensures var f := Forest(Placement(items).roots, children);
      && f.Valid()
      && (forall x :: Reached(f, x) <==> Reached(Placement(items), x))
      && (forall x :: 0 <= x < |items| ==>
            children[x] == if Reached(f, x) then SortByKey(Placement(items).children[x], OrderKey(items)) else Placement(items).children[x])
      && (forall x :: 0 <= x < |items| && Reached(f, x) ==> SortedBy(children[x], OrderKey(items)))
  {
    var placed := Placement(items);
    var f := Forest(placed.roots, children);
    forall p | 0 <= p < |items|
      ensures multiset(children[p]) == multiset(placed.children[p]) && NoDup(children[p])
      ensures p in Nodes(Visits(placed)) ==> SortedBy(children[p], OrderKey(items))
    {
      SortByKeyIsStableSort(placed.children[p], OrderKey(items));
    }
    ValidAfterReorder(placed, f);
    forall p, c | 0 <= p < |items| ensures c in f.children[p] <==> c in placed.children[p] {
      assert c in f.children[p] <==> c in multiset(f.children[p]);
    }
    SameMembersSameReach(placed, f);
  }

  /**
   * `_build_tree`: indexes the items by id, places each one under its parent
   * or among the roots, then sorts every children list reached from a root.
   */
  method BuildTree(items: seq<MenuItem>) returns (f: Forest)
    ensures f.Valid() && f.roots == Placement(items).roots && |f.children| == |items|
    ensures forall x :: Reached(f, x) <==> Reached(Placement(items), x)
    ensures forall x :: 0 <= x < |items| ==>
      f.children[x] == if Reached(f, x) then SortByKey(Placement(items).children[x], OrderKey(items)) else Placement(items).children[x]
    ensures forall x :: 0 <= x < |items| && Reached(f, x) ==> SortedBy(f.children[x], OrderKey(items))
  {
    var nodes, empty := IndexItems(items);
    var roots, children := PlaceItems(items, nodes, empty);
    ghost var placed := Forest(roots, children);
    RootChains(placed);
    children := SortSiblings(items, children, placed, [], roots);
    SortedPlacement(items, children);
    f := Forest(roots, children);
  }
}
