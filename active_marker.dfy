/**
 * Marking the menu tree for one request. The walk visits the nodes reached
 * from the roots in pre-order, carrying the chain of each node's ancestors.
 * At each node it clears both flags, and when the node matches the request
 * it sets the node active, remembers it as the active node and expands every
 * ancestor. After the walk, the last node that matched is expanded, together
 * with its direct children. The flags live in two arrays indexed by node.
 */
module ActiveMarker {
  import opened Wrappers
  import opened MenuModels
  import opened StableSort
  import opened Forests
  import TreeBuilder

  /**
   * What the marking needs from a request: its path, and the name of the
   * view that path resolves to (`None` when it does not resolve).
   */
  datatype Request = Request(view: Option<string>, path: string)

  /** An item matches a request by a non-blank named route equal to the resolved view, or by a non-blank raw URL equal to the path. */
  predicate Matches(item: MenuItem, req: Request): (r: bool)
    ensures r ==> req.view == Some(item.namedUrl) || item.rawUrl == req.path
    ensures item.namedUrl == "" && item.rawUrl == "" ==> !r
    ensures item.rawUrl != "" && item.rawUrl == req.path ==> r
    ensures item.namedUrl != "" && req.view == Some(item.namedUrl) ==> r
  {
    if item.namedUrl != "" && req.view.Some? && req.view.value != "" && item.namedUrl == req.view.value then true
    else item.rawUrl != "" && item.rawUrl == req.path
  }

  /** Node `x` is an item that matches the request. */
  ghost predicate HitAt(items: seq<MenuItem>, req: Request, x: nat) {
    x < |items| && Matches(items[x], req)
  }

  /** Some visit of the walk matches. */
  ghost predicate AnyHit(items: seq<MenuItem>, req: Request, w: seq<Visit>) {
    exists u :: u in w && HitAt(items, req, u.node)
  }

  /** Some matching visit of the walk has `x` among its ancestors. */
  ghost predicate BelowHit(items: seq<MenuItem>, req: Request, w: seq<Visit>, x: nat) {
    exists u :: u in w && HitAt(items, req, u.node) && x in u.chain
  }

  /** The active node after `b` is processed following `a`: `b`'s if it found one, else `a`. */
  function Later(a: Option<nat>, b: Option<nat>): Option<nat> {
    if b.Some? then b else a
  }

  /** The last node of the walk that matches the request. */
  ghost function LastHit(items: seq<MenuItem>, req: Request, w: seq<Visit>): Option<nat> {
    if w == [] then None
    else if HitAt(items, req, w[|w| - 1].node) then Some(w[|w| - 1].node)
    else LastHit(items, req, w[..|w| - 1])
  }

  /** `LastHit` finds a match with no match after it, and finds none only when there is none. */
  lemma {:induction false} LastHitIsLast(items: seq<MenuItem>, req: Request, w: seq<Visit>)
    ensures LastHit(items, req, w).None? <==> !AnyHit(items, req, w)
    ensures LastHit(items, req, w).Some? ==>
      exists i :: (0 <= i < |w| && w[i].node == LastHit(items, req, w).value && HitAt(items, req, w[i].node) &&
                   forall j :: i < j < |w| ==> !HitAt(items, req, w[j].node))
  {
    if w != [] {
      var init := w[..|w| - 1];
      LastHitIsLast(items, req, init);
      assert w == init + [w[|w| - 1]];
      if !HitAt(items, req, w[|w| - 1].node) && LastHit(items, req, init).Some? {
        var i :| 0 <= i < |init| && init[i].node == LastHit(items, req, init).value && HitAt(items, req, init[i].node) &&
          forall j :: i < j < |init| ==> !HitAt(items, req, init[j].node);
        assert w[i] == init[i];
      }
    }
  }

  /** The last match of a concatenated walk is the second part's, if it has one. */
  lemma {:induction false} LastHitConcat(items: seq<MenuItem>, req: Request, w1: seq<Visit>, w2: seq<Visit>)
    ensures LastHit(items, req, w1 + w2) == Later(LastHit(items, req, w1), LastHit(items, req, w2))
    decreases |w2|
  {
    if w2 == [] {
      assert w1 + w2 == w1;
    } else {
      var w := w1 + w2;
      assert w[..|w| - 1] == w1 + w2[..|w2| - 1];
      LastHitConcat(items, req, w1, w2[..|w2| - 1]);
    }
  }

  /**
   * The flags `a1`/`e1` are the flags `a0`/`e0` after walking `w` below the
   * ancestors `ch`: every node of the walk is active iff it matches and
   * expanded iff it is an ancestor of a match of the walk; every ancestor is
   * expanded if anything in the walk matched; nothing else changes.
   */
  ghost predicate MarkedBy(items: seq<MenuItem>, req: Request, ch: seq<nat>, w: seq<Visit>,
                           a0: seq<bool>, e0: seq<bool>, a1: seq<bool>, e1: seq<bool>)
  {
    && |a0| == |e0| == |a1| == |e1| == |items|
    && forall x :: 0 <= x < |items| ==>
      && a1[x] == (if x in Nodes(w) then HitAt(items, req, x) else a0[x])
      && e1[x] == (if x in Nodes(w) then BelowHit(items, req, w, x)
                   else if x in ch then e0[x] || AnyHit(items, req, w)
                   else e0[x])
  }

  /** The chains of a walk below `ch` stay within `ch` and the walk itself, and no node of the walk is in `ch`. */
  ghost predicate ClosedBelow(ch: seq<nat>, w: seq<Visit>) {
    && (forall u, x :: u in w && x in u.chain ==> x in ch || x in Nodes(w))
    && (forall x :: x in Nodes(w) ==> x !in ch)
  }

  /** Walking two node-disjoint walks below the same ancestors one after the other is walking their concatenation. */
  lemma MarkedThen(items: seq<MenuItem>, req: Request, ch: seq<nat>, w1: seq<Visit>, w2: seq<Visit>,
                   a0: seq<bool>, e0: seq<bool>, a1: seq<bool>, e1: seq<bool>, a2: seq<bool>, e2: seq<bool>)
    requires MarkedBy(items, req, ch, w1, a0, e0, a1, e1) && MarkedBy(items, req, ch, w2, a1, e1, a2, e2)
    requires ClosedBelow(ch, w1) && ClosedBelow(ch, w2) && Nodes(w1) !! Nodes(w2)
    ensures MarkedBy(items, req, ch, w1 + w2, a0, e0, a2, e2)
  {
    var w := w1 + w2;
    assert Nodes(w) == Nodes(w1) + Nodes(w2);
    forall x | 0 <= x < |items|
      ensures BelowHit(items, req, w, x) <==> BelowHit(items, req, w1, x) || BelowHit(items, req, w2, x)
    {
      if BelowHit(items, req, w, x) {
        var u :| u in w && HitAt(items, req, u.node) && x in u.chain;
        assert u in w1 || u in w2;
      }
    }
    forall x | 0 <= x < |items| && x in Nodes(w1) ensures !BelowHit(items, req, w2, x) {
      forall u | u in w2 ensures x !in u.chain {
      }
    }
    forall x | 0 <= x < |items| && x in Nodes(w2) ensures !BelowHit(items, req, w1, x) {
      forall u | u in w1 ensures x !in u.chain {
      }
    }
    assert AnyHit(items, req, w) <==> AnyHit(items, req, w1) || AnyHit(items, req, w2) by {
      if AnyHit(items, req, w) {
        var u :| u in w && HitAt(items, req, u.node);
        assert u in w1 || u in w2;
      }
    }
  }

  /** How the walk of `node`'s subtree relates to the walk `c` of its children's subtrees. */
  lemma NodeWalk(items: seq<MenuItem>, req: Request, ch: seq<nat>, node: nat, c: seq<Visit>)
    requires node !in ch && ClosedBelow(ch + [node], c)
    requires forall u :: u in c ==> |ch + [node]| <= |u.chain| && u.chain[..|ch + [node]|] == ch + [node]
    ensures var w := [Visit(node, ch)] + c;
      && Nodes(w) == {node} + Nodes(c)
      && (AnyHit(items, req, w) <==> HitAt(items, req, node) || AnyHit(items, req, c))
      && (BelowHit(items, req, w, node) <==> AnyHit(items, req, c))
      && (forall x :: x in Nodes(c) ==> (BelowHit(items, req, w, x) <==> BelowHit(items, req, c, x)))
      && (forall x :: x in ch ==> x !in Nodes(c))
  {
    var v := Visit(node, ch);
    var w := [v] + c;
    var up := ch + [node];
    assert Nodes(w) == {node} + Nodes(c);
    forall u | u in c ensures node in u.chain {
      assert u.chain[..|up|][|ch|] == node;
    }
    assert AnyHit(items, req, w) <==> HitAt(items, req, node) || AnyHit(items, req, c) by {
      if AnyHit(items, req, w) {
        var u :| u in w && HitAt(items, req, u.node);
        assert u == v || u in c;
      }
    }
    assert BelowHit(items, req, w, node) <==> AnyHit(items, req, c) by {
      if AnyHit(items, req, c) {
        var u :| u in c && HitAt(items, req, u.node);
        assert u in w;
      }
    }
    forall x | x in Nodes(c) ensures BelowHit(items, req, w, x) <==> BelowHit(items, req, c, x) {
      assert x !in up;
      if BelowHit(items, req, w, x) {
        var u :| u in w && HitAt(items, req, u.node) && x in u.chain;
        assert u in c;
      }
    }
  }

  /**
   * Visiting `node` (clearing its flags, marking it and its ancestors on a
   * match) and then walking its children's subtrees is walking the subtree of
   * `node`.
   */
  lemma MarkedNode(items: seq<MenuItem>, req: Request, ch: seq<nat>, node: nat, c: seq<Visit>,
                   a0: seq<bool>, e0: seq<bool>, a1: seq<bool>, e1: seq<bool>, a2: seq<bool>, e2: seq<bool>)
    requires node !in ch
    requires MarkedBy(items, req, ch, [Visit(node, ch)], a0, e0, a1, e1)
    requires MarkedBy(items, req, ch + [node], c, a1, e1, a2, e2)
    requires ClosedBelow(ch + [node], c)
    requires forall u :: u in c ==> |ch + [node]| <= |u.chain| && u.chain[..|ch + [node]|] == ch + [node]
    ensures MarkedBy(items, req, ch, [Visit(node, ch)] + c, a0, e0, a2, e2)
  {
    var v := Visit(node, ch);
    var w := [v] + c;
    NodeWalk(items, req, ch, node, c);
    assert Nodes([v]) == {node};
    forall x | 0 <= x < |items|
      ensures a2[x] == (if x in Nodes(w) then HitAt(items, req, x) else a0[x])
      ensures e2[x] == (if x in Nodes(w) then BelowHit(items, req, w, x)
                        else if x in ch then e0[x] || AnyHit(items, req, w)
                        else e0[x])
    {
      if x == node {
        assert x in ch + [node];
      } else if x in Nodes(c) {
        assert x !in Nodes([v]);
      } else if x in ch {
        assert x in ch + [node];
      } else {
        assert x !in ch + [node];
      }
    }
  }

  /** Marking one more sibling's subtree extends the marking of the siblings before it. */
  lemma MarkedSibling(items: seq<MenuItem>, req: Request, f: Forest, ch: seq<nat>, cs: seq<nat>, k: nat,
                      a0: seq<bool>, e0: seq<bool>, a1: seq<bool>, e1: seq<bool>, a2: seq<bool>, e2: seq<bool>)
    requires f.Valid() && NoDup(cs) && (forall c :: c in cs ==> ValidChain(f, ch + [c])) && k < |cs|
    requires MarkedBy(items, req, ch, VisitsOf(f, ch, cs[..k]), a0, e0, a1, e1)
    requires MarkedBy(items, req, ch, VisitsFrom(f, ch, cs[k]), a1, e1, a2, e2)
    ensures MarkedBy(items, req, ch, VisitsOf(f, ch, cs[..k + 1]), a0, e0, a2, e2)
    ensures LastHit(items, req, VisitsOf(f, ch, cs[..k + 1]))
         == Later(LastHit(items, req, VisitsOf(f, ch, cs[..k])), LastHit(items, req, VisitsFrom(f, ch, cs[k])))
  {
    var done := VisitsOf(f, ch, cs[..k]);
    var next := VisitsFrom(f, ch, cs[k]);
    WalkOfClosed(f, ch, cs[..k]);
    WalkFromClosed(f, ch, cs[k]);
    SiblingsDisjoint(f, ch, cs, k);
    MarkedThen(items, req, ch, done, next, a0, e0, a1, e1, a2, e2);
    LastHitConcat(items, req, done, next);
    assert cs[..k + 1][..k] == cs[..k];
  }

  /**
   * `dfs(node, parent_chain)`: marks the subtree of `node`, whose ancestors
   * are `ch`, and returns the active node after it (`a` is the one before).
   */
  method MarkSubtree(items: seq<MenuItem>, f: Forest, req: Request, active: array<bool>, expanded: array<bool>,
               node: nat, ch: seq<nat>, a: Option<nat>) returns (a': Option<nat>)
    requires f.Valid() && |f.children| == |items| == active.Length == expanded.Length && active != expanded
    requires ValidChain(f, ch + [node])
    modifies active, expanded
    ensures a' == Later(a, LastHit(items, req, VisitsFrom(f, ch, node)))
    ensures MarkedBy(items, req, ch, VisitsFrom(f, ch, node), old(active[..]), old(expanded[..]), active[..], expanded[..])
    decreases |f.children| - |ch|, 1
  {
    ghost var a0, e0 := active[..], expanded[..];
    ChildrenChains(f, ch, node);
    ChainBound(f, ch + [node]);
    NotOwnAncestor(f, ch, node);
    a' := a;
    active[node] := false;
    expanded[node] := false;
    var hit := Matches(items[node], req);
    assert forall j :: 0 <= j < |ch| ==> ch[j] == (ch + [node])[j];
    if hit {
      active[node] := true;
      a' := Some(node);
      for j := 0 to |ch|
        invariant active[..] == a0[node := true]
        invariant forall x :: 0 <= x < |items| ==> expanded[x] == (x != node && (x in ch[..j] || e0[x]))
      {
        expanded[ch[j]] := true;
      }
    }
    ghost var v := Visit(node, ch);
    assert Nodes([v]) == {node};
    assert a' == Later(a, LastHit(items, req, [v]));
    assert MarkedBy(items, req, ch, [v], a0, e0, active[..], expanded[..]) by {
      assert ch[..|ch|] == ch;
      assert AnyHit(items, req, [v]) <==> hit by {
        if hit {
          assert v in [v];
        }
      }
    }
    ghost var a1, e1 := active[..], expanded[..];
    ghost var c := VisitsOf(f, ch + [node], f.children[node]);
    a' := MarkSiblings(items, f, req, active, expanded, f.children[node], ch + [node], a');
    WalkOfClosed(f, ch + [node], f.children[node]);
    MarkedNode(items, req, ch, node, c, a0, e0, a1, e1, active[..], expanded[..]);
    LastHitConcat(items, req, [v], c);
  }

  /**
   * The loops `for child in node.children: dfs(child, ...)` and
   * `for root in roots: dfs(root, [])`: marks the subtrees of the siblings
   * `cs`, whose common ancestors are `ch`, in list order.
   */
  method MarkSiblings(items: seq<MenuItem>, f: Forest, req: Request, active: array<bool>, expanded: array<bool>,
                  cs: seq<nat>, ch: seq<nat>, a: Option<nat>) returns (a': Option<nat>)
    requires f.Valid() && |f.children| == |items| == active.Length == expanded.Length && active != expanded
    requires NoDup(cs) && forall c :: c in cs ==> ValidChain(f, ch + [c])
    modifies active, expanded
    ensures a' == Later(a, LastHit(items, req, VisitsOf(f, ch, cs)))
    ensures MarkedBy(items, req, ch, VisitsOf(f, ch, cs), old(active[..]), old(expanded[..]), active[..], expanded[..])
    decreases |f.children| + 1 - |ch|, 0
  {
    ghost var a0, e0 := active[..], expanded[..];
    a' := a;
    assert Nodes([]) == {};
    for k := 0 to |cs|
      invariant a' == Later(a, LastHit(items, req, VisitsOf(f, ch, cs[..k])))
      invariant MarkedBy(items, req, ch, VisitsOf(f, ch, cs[..k]), a0, e0, active[..], expanded[..])
    {
      assert cs[k] in cs;
      ChainBound(f, ch + [cs[k]]);
      ghost var a1, e1 := active[..], expanded[..];
      a' := MarkSubtree(items, f, req, active, expanded, cs[k], ch, a');
      MarkedSibling(items, req, f, ch, cs, k, a0, e0, a1, e1, active[..], expanded[..]);
    }
    assert cs[..|cs|] == cs;
  }

  /** `x` is the node found active last, or one of its direct children. */
  ghost predicate NearLast(f: Forest, last: Option<nat>, x: nat) {
    last.Some? && last.value < |f.children| && (x == last.value || x in f.children[last.value])
  }

  /** The active flags after marking: a reached node is active iff it matches; an unreached one keeps its flag. */
  ghost function ActiveAfter(items: seq<MenuItem>, f: Forest, req: Request, prior: seq<bool>): seq<bool>
    requires f.Valid() && |prior| == |items|
  {
    seq(|prior|, x requires 0 <= x < |prior| => if Reached(f, x) then HitAt(items, req, x) else prior[x])
  }

  /**
   * The expanded flags after marking: a reached node is expanded iff it is an
   * ancestor of a match, or it is the last match in pre-order or one of that
   * match's children; an unreached one keeps its flag.
   */
  ghost function ExpandedAfter(items: seq<MenuItem>, f: Forest, req: Request, prior: seq<bool>): seq<bool>
    requires f.Valid() && |prior| == |items|
  {
    var w := Visits(f);
    seq(|prior|, x requires 0 <= x < |prior| =>
      if Reached(f, x) then BelowHit(items, req, w, x) || NearLast(f, LastHit(items, req, w), x) else prior[x])
  }

  /** The last match of the walk is reached, and so are its children. */
  lemma LastHitReached(items: seq<MenuItem>, req: Request, f: Forest)
    requires f.Valid()
    ensures var last := LastHit(items, req, Visits(f));
      last.Some? ==> (last.value < |f.children| && Reached(f, last.value) &&
                      forall c :: c in f.children[last.value] ==> Reached(f, c))
  {
    var w := Visits(f);
    LastHitIsLast(items, req, w);
    if LastHit(items, req, w).Some? {
      var h := LastHit(items, req, w).value;
      var i :| 0 <= i < |w| && w[i].node == h && HitAt(items, req, w[i].node) &&
        forall j :: i < j < |w| ==> !HitAt(items, req, w[j].node);
      var u := w[i];
      RootChains(f);
      VisitsOfShape(f, [], f.roots, u);
      forall c | c in f.children[h] ensures Reached(f, c) {
        var full := u.chain + [h];
        assert full[|full| - 1] == h;
        ChainExtend(f, full, c);
        ChainReached(f, full, c);
      }
    }
  }

  /** The marking walk followed by expanding the last match and its children gives `ActiveAfter` and `ExpandedAfter`. */
  lemma MarkedAll(items: seq<MenuItem>, req: Request, f: Forest, last: Option<nat>,
                  a0: seq<bool>, e0: seq<bool>, a1: seq<bool>, e1: seq<bool>, e2: seq<bool>)
    requires f.Valid() && |f.children| == |items|
    requires MarkedBy(items, req, [], Visits(f), a0, e0, a1, e1) && last == LastHit(items, req, Visits(f))
    requires |e2| == |items| && forall x :: 0 <= x < |items| ==> e2[x] == (NearLast(f, last, x) || e1[x])
    ensures a1 == ActiveAfter(items, f, req, a0)
    ensures e2 == ExpandedAfter(items, f, req, e0)
  {
    LastHitReached(items, req, f);
  }

  /**
   * The final step of the marking: the active node `h` is expanded, and so is
   * each of its direct children.
   */
  method ExpandWithChildren(f: Forest, expanded: array<bool>, h: nat)
    requires f.Valid() && |f.children| == expanded.Length && h < |f.children|
    modifies expanded
    ensures forall x :: 0 <= x < expanded.Length ==>
      expanded[x] == (x == h || x in f.children[h] || old(expanded[x]))
  {
    expanded[h] := true;
    var cs := f.children[h];
    for j := 0 to |cs|
      invariant forall x :: 0 <= x < expanded.Length ==> expanded[x] == (x == h || x in cs[..j] || old(expanded[x]))
    {
      assert cs[j] in cs;
      expanded[cs[j]] := true;
    }
    assert cs[..|cs|] == cs;
  }

  /**
   * `_mark_active_and_expanded(roots, request)`: walks the forest from its
   * roots, then expands the last node found active and its direct children.
   */
  method MarkActiveAndExpanded(items: seq<MenuItem>, f: Forest, req: Request, active: array<bool>, expanded: array<bool>)
    requires f.Valid() && |f.children| == |items| == active.Length == expanded.Length && active != expanded
    modifies active, expanded
    ensures active[..] == ActiveAfter(items, f, req, old(active[..]))
    ensures expanded[..] == ExpandedAfter(items, f, req, old(expanded[..]))
  {
    ghost var a0, e0 := active[..], expanded[..];
    RootChains(f);
    var last := MarkSiblings(items, f, req, active, expanded, f.roots, [], None);
    ghost var a1, e1 := active[..], expanded[..];
    LastHitReached(items, req, f);
    if last.Some? {
      ExpandWithChildren(f, expanded, last.value);
    }
    MarkedAll(items, req, f, last, a0, e0, a1, e1, expanded[..]);
  }

  /** `x` is a strict ancestor of a matching node: it lies on the downward path from a root to that node. */
  ghost predicate AncestorOfMatch(items: seq<MenuItem>, req: Request, f: Forest, x: nat) {
    exists anc, h :: ValidChain(f, anc + [h]) && HitAt(items, req, h) && x in anc
  }

  /** Every node reachable from a root is active after marking exactly when it matches the request. */
  lemma ActiveIffMatches(items: seq<MenuItem>, f: Forest, req: Request, prior: seq<bool>, anc: seq<nat>, x: nat)
    requires f.Valid() && |f.children| == |items| == |prior| && ValidChain(f, anc + [x]) && x < |items|
    ensures ActiveAfter(items, f, req, prior)[x] <==> Matches(items[x], req)
  {
    ChainReached(f, anc, x);
  }

  /** Two items whose raw URL is "/a", the second one naming the first as its parent. */
  function NestedSamePath(): seq<MenuItem> {
    [MenuItem(1, None, "Home", "/a", "", 0, false), MenuItem(2, Some(1), "Sub", "/a", "", 0, false)]
  }

  /** Built from `NestedSamePath`, the first item is a root and the second its child. */
  lemma NestedSamePathTree()
    ensures var f := TreeBuilder.Placement(NestedSamePath());
      ValidChain(f, [0]) && ValidChain(f, [0, 1])
  {
    TreeBuilder.RootIff(NestedSamePath(), 0);
    TreeBuilder.ChildIff(NestedSamePath(), 0, 1);
  }

  /**
   * Both items of `NestedSamePath` are active after marking for the path "/a":
   * every match is marked, not only one.
   */
  lemma BothMatchesActive(prior: seq<bool>)
    requires |prior| == 2
    ensures ActiveAfter(NestedSamePath(), TreeBuilder.Placement(NestedSamePath()), Request(None, "/a"), prior) == [true, true]
  {
    var f := TreeBuilder.Placement(NestedSamePath());
    NestedSamePathTree();
    assert [0] == [] + [0] && [0, 1] == [0] + [1];
    ActiveIffMatches(NestedSamePath(), f, Request(None, "/a"), prior, [], 0);
    ActiveIffMatches(NestedSamePath(), f, Request(None, "/a"), prior, [0], 1);
  }

  /**
   * A node reachable from a root is expanded after marking exactly when it is
   * an ancestor of some matching node, or it is the last match in pre-order,
   * or a direct child of that last match.
   */
  lemma ExpandedIff(items: seq<MenuItem>, f: Forest, req: Request, prior: seq<bool>, anc: seq<nat>, x: nat)
    requires f.Valid() && |f.children| == |items| == |prior| && ValidChain(f, anc + [x]) && x < |items|
    ensures ExpandedAfter(items, f, req, prior)[x] <==>
      AncestorOfMatch(items, req, f, x) || NearLast(f, LastHit(items, req, Visits(f)), x)
  {
    var w := Visits(f);
    ChainReached(f, anc, x);
    RootChains(f);
    if BelowHit(items, req, w, x) {
      var u :| u in w && HitAt(items, req, u.node) && x in u.chain;
      VisitsOfShape(f, [], f.roots, u);
    }
    if AncestorOfMatch(items, req, f, x) {
      var anc', h :| ValidChain(f, anc' + [h]) && HitAt(items, req, h) && x in anc';
      ChainReached(f, anc', h);
    }
  }

  /** Every node on the path from a root down to a matching node, the matching node excluded, is expanded. */
  lemma AncestorsOfMatchExpanded(items: seq<MenuItem>, f: Forest, req: Request, prior: seq<bool>, anc: seq<nat>, x: nat)
    requires f.Valid() && |f.children| == |items| == |prior| && ValidChain(f, anc + [x]) && x < |items|
    requires Matches(items[x], req)
    ensures forall y :: y in anc ==> y < |items| && ExpandedAfter(items, f, req, prior)[y]
  {
    forall y | y in anc ensures y < |items| && ExpandedAfter(items, f, req, prior)[y] {
      var j :| 0 <= j < |anc| && anc[j] == y;
      var full := anc + [x];
      ChainPrefix(f, full, j + 1);
      assert full[..j + 1] == anc[..j] + [y];
      assert full[j] == y;
      ExpandedIff(items, f, req, prior, anc[..j], y);
    }
  }

  /** The last match in pre-order is expanded after marking, and so are its direct children. */
  lemma LastMatchExpanded(items: seq<MenuItem>, f: Forest, req: Request, prior: seq<bool>)
    requires f.Valid() && |f.children| == |items| == |prior|
    ensures var last := LastHit(items, req, Visits(f));
      last.Some? ==> (last.value < |items| && ExpandedAfter(items, f, req, prior)[last.value] &&
                      forall c :: c in f.children[last.value] ==> c < |items| && ExpandedAfter(items, f, req, prior)[c])
  {
    LastHitReached(items, req, f);
  }

  /** When no reachable node matches, no reachable node ends up active or expanded. */
  lemma NoMatchNoFlags(items: seq<MenuItem>, f: Forest, req: Request, pa: seq<bool>, pe: seq<bool>)
    requires f.Valid() && |f.children| == |items| == |pa| == |pe|
    requires forall anc, x :: ValidChain(f, anc + [x]) ==> !HitAt(items, req, x)
    ensures LastHit(items, req, Visits(f)).None?
    ensures forall x :: 0 <= x < |items| && Reached(f, x) ==>
      !ActiveAfter(items, f, req, pa)[x] && !ExpandedAfter(items, f, req, pe)[x]
  {
    var w := Visits(f);
    RootChains(f);
    forall u | u in w ensures !HitAt(items, req, u.node) {
      VisitsOfShape(f, [], f.roots, u);
    }
    LastHitIsLast(items, req, w);
  }

  /** What marking leaves on a reachable node does not depend on the flags it had before. */
  lemma MarkingForgetsPriorFlags(items: seq<MenuItem>, f: Forest, req: Request,
                                 pa: seq<bool>, qa: seq<bool>, pe: seq<bool>, qe: seq<bool>, anc: seq<nat>, x: nat)
    requires f.Valid() && |f.children| == |items| == |pa| == |qa| == |pe| == |qe|
    requires ValidChain(f, anc + [x]) && x < |items|
    ensures ActiveAfter(items, f, req, pa)[x] == ActiveAfter(items, f, req, qa)[x]
    ensures ExpandedAfter(items, f, req, pe)[x] == ExpandedAfter(items, f, req, qe)[x]
  {
    ChainReached(f, anc, x);
  }

  /** Marking twice for the same request leaves the flags as marking once. */
  lemma MarkingIdempotent(items: seq<MenuItem>, f: Forest, req: Request, pa: seq<bool>, pe: seq<bool>)
    requires f.Valid() && |f.children| == |items| == |pa| == |pe|
    ensures ActiveAfter(items, f, req, ActiveAfter(items, f, req, pa)) == ActiveAfter(items, f, req, pa)
    ensures ExpandedAfter(items, f, req, ExpandedAfter(items, f, req, pe)) == ExpandedAfter(items, f, req, pe)
  {
  }
}
