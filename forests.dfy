/**
 * The menu tree in arena form: node `i` is item `i`, `roots` lists the
 * top-level nodes and `children[p]` the nodes hanging under `p`. A depth-first
 * walk carries the chain of strict ancestors of the node it is at, as the
 * marking walk does; in a forest where every node has at most one holder such
 * a chain never repeats a node, which bounds its length and so makes every
 * walk terminate, whatever the parent ids were (nodes on a cycle are simply
 * never reached from a root).
 */
module Forests {
  import opened StableSort

  datatype Forest = Forest(roots: seq<nat>, children: seq<seq<nat>>) {
    /** Every node is held by at most one list (the roots or one parent's children), at most once. */
    ghost predicate Valid() {
      && (forall r :: r in roots ==> r < |children|)
      && (forall p, c :: 0 <= p < |children| && c in children[p] ==> c < |children|)
      && NoDup(roots)
      && (forall p :: 0 <= p < |children| ==> NoDup(children[p]))
      && (forall p, c :: 0 <= p < |children| && c in children[p] ==> c !in roots)
      && (forall p, q, c :: 0 <= p < |children| && 0 <= q < |children| && c in children[p] && c in children[q] ==> p == q)
    }
  }

  /** `ch` is a downward path: it starts at a root and each node is a child of the one before. */
  ghost predicate ValidChain(f: Forest, ch: seq<nat>) {
    && (forall j :: 0 <= j < |ch| ==> ch[j] < |f.children|)
    && (|ch| > 0 ==> ch[0] in f.roots)
    && (forall j :: 0 <= j < |ch| - 1 ==> ch[j + 1] in f.children[ch[j]])
  }

  lemma ChainPrefix(f: Forest, ch: seq<nat>, m: nat)
    requires ValidChain(f, ch) && m <= |ch|
    ensures ValidChain(f, ch[..m])
  {
    assert forall j :: 0 <= j < m ==> ch[..m][j] == ch[j];
  }

  lemma ChainExtend(f: Forest, ch: seq<nat>, c: nat)
    requires f.Valid() && ValidChain(f, ch) && ch != [] && c in f.children[ch[|ch| - 1]]
    ensures ValidChain(f, ch + [c])
  {
    var ch' := ch + [c];
    assert forall j :: 0 <= j < |ch| ==> ch'[j] == ch[j];
  }

  /** Two positions of a downward path never hold the same node. */
  lemma {:induction false} ChainDistinctAt(f: Forest, ch: seq<nat>, a: nat, b: nat)
    requires f.Valid() && ValidChain(f, ch) && a < b < |ch|
    ensures ch[a] != ch[b]
    decreases a
  {
    assert ch[b] in f.children[ch[b - 1]];
    if a > 0 {
      assert ch[a] in f.children[ch[a - 1]];
      ChainDistinctAt(f, ch, a - 1, b - 1);
    }
  }

  lemma ChainNoDup(f: Forest, ch: seq<nat>)
    requires f.Valid() && ValidChain(f, ch)
    ensures NoDup(ch)
  {
    forall a, b | 0 <= a < b < |ch| ensures ch[a] != ch[b] {
      ChainDistinctAt(f, ch, a, b);
    }
  }

  /** A node is never among its own ancestors. */
  lemma NotOwnAncestor(f: Forest, anc: seq<nat>, x: nat)
    requires f.Valid() && ValidChain(f, anc + [x])
    ensures x !in anc
  {
    var ch := anc + [x];
    forall j | 0 <= j < |anc| ensures anc[j] != x {
      ChainDistinctAt(f, ch, j, |anc|);
      assert ch[j] == anc[j];
    }
  }

  /** A node held in `p`'s children list is reached only through `p`, and never lies above itself. */
  lemma ChainThroughHolder(f: Forest, anc: seq<nat>, x: nat, p: nat)
    requires f.Valid() && p < |f.children| && x in f.children[p]
    ensures ValidChain(f, anc + [x]) ==> anc != [] && anc[|anc| - 1] == p && x !in anc
  {
    if ValidChain(f, anc + [x]) {
      HolderOf(f, anc, x);
      NotOwnAncestor(f, anc, x);
    }
  }

  /** Dropping position `k` of a duplicate-free sequence removes exactly one element, `s[k]`. */
  lemma DropAt(s: seq<nat>, k: nat)
    requires NoDup(s) && k < |s|
    ensures var t := s[..k] + s[k + 1..];
      |t| == |s| - 1 && NoDup(t) && forall x :: x in t ==> x in s && x != s[k]
  {
    var t := s[..k] + s[k + 1..];
    assert forall i :: 0 <= i < |t| ==> t[i] == if i < k then s[i] else s[i + 1];
    forall i, j | 0 <= i < j < |t| ensures t[i] != t[j] {
      var i' := if i < k then i else i + 1;
      var j' := if j < k then j else j + 1;
      assert t[i] == s[i'] && t[j] == s[j'];
    }
    forall x | x in t ensures x in s && x != s[k] {
      var i :| 0 <= i < |t| && t[i] == x;
      var i' := if i < k then i else i + 1;
      assert x == s[i'] && i' != k;
    }
  }

  /** Pigeonhole: a duplicate-free sequence of naturals below `n` has at most `n` elements. */
  lemma {:induction false} NoDupBound(s: seq<nat>, n: nat)
    requires NoDup(s) && forall x :: x in s ==> x < n
    ensures |s| <= n
    decreases n
  {
    if n == 0 {
      assert forall i :: 0 <= i < |s| ==> s[i] in s;
    } else if n - 1 in s {
      var k :| 0 <= k < |s| && s[k] == n - 1;
      var t := s[..k] + s[k + 1..];
      DropAt(s, k);
      NoDupBound(t, n - 1);
    } else {
      NoDupBound(s, n - 1);
    }
  }

  /** A downward path is no longer than the number of nodes. */
  lemma ChainBound(f: Forest, ch: seq<nat>)
    requires f.Valid() && ValidChain(f, ch)
    ensures |ch| <= |f.children|
  {
    ChainNoDup(f, ch);
    NoDupBound(ch, |f.children|);
  }

  /** The last node of a downward path is a root exactly when the path has one node, else a child of the node before. */
  lemma HolderOf(f: Forest, anc: seq<nat>, x: nat)
    requires f.Valid() && ValidChain(f, anc + [x])
    ensures anc == [] <==> x in f.roots
    ensures anc != [] ==> anc[|anc| - 1] < |f.children| && x in f.children[anc[|anc| - 1]]
  {
    var full := anc + [x];
    if anc != [] {
      assert full[|anc|] in f.children[full[|anc| - 1]];
    }
  }

  /** A node has only one chain of ancestors. */
  lemma {:induction false} ChainUnique(f: Forest, a: seq<nat>, b: seq<nat>, x: nat)
    requires f.Valid() && ValidChain(f, a + [x]) && ValidChain(f, b + [x])
    ensures a == b
    decreases |a|
  {
    HolderOf(f, a, x);
    HolderOf(f, b, x);
    if a != [] && b != [] {
      var ca, cb := a + [x], b + [x];
      var a', b' := a[..|a| - 1], b[..|b| - 1];
      ChainPrefix(f, ca, |a|);
      ChainPrefix(f, cb, |b|);
      assert ca[..|a|] == a' + [a[|a| - 1]];
      assert cb[..|b|] == b' + [b[|b| - 1]];
      ChainUnique(f, a', b', a[|a| - 1]);
      assert a == a' + [a[|a| - 1]];
      assert b == b' + [b[|b| - 1]];
    }
  }

  /** One step of a walk: a node and the chain of its strict ancestors, root first. */
  datatype Visit = Visit(node: nat, chain: seq<nat>)

  /** The nodes a walk passes through. */
  ghost function Nodes(w: seq<Visit>): set<nat> {
    set v | v in w :: v.node
  }

  lemma ChildrenChains(f: Forest, ch: seq<nat>, node: nat)
    requires f.Valid() && ValidChain(f, ch + [node])
    ensures node < |f.children|
    ensures forall c :: c in f.children[node] ==> ValidChain(f, ch + [node] + [c])
  {
    assert (ch + [node])[|ch|] == node;
    forall c | c in f.children[node] ensures ValidChain(f, ch + [node] + [c]) {
      ChainExtend(f, ch + [node], c);
    }
  }

  /** The pre-order walk of the subtree of `node`, whose strict ancestors are `ch`. */
  ghost function VisitsFrom(f: Forest, ch: seq<nat>, node: nat): (w: seq<Visit>)
    requires f.Valid() && ValidChain(f, ch + [node])
    ensures forall v :: v in w ==> v.node < |f.children|
    decreases |f.children| - |ch|, 0
  {
    ChildrenChains(f, ch, node);
    ChainBound(f, ch + [node]);
    [Visit(node, ch)] + VisitsOf(f, ch + [node], f.children[node])
  }

  /** The pre-order walks of the sibling subtrees `cs`, in list order. */
  ghost function VisitsOf(f: Forest, ch: seq<nat>, cs: seq<nat>): (w: seq<Visit>)
    requires f.Valid() && forall c :: c in cs ==> ValidChain(f, ch + [c])
    ensures forall v :: v in w ==> v.node < |f.children|
    decreases |f.children| - |ch|, |cs|
  {
    if cs == [] then []
    else
      ChainBound(f, ch + [cs[0]]);
      VisitsOf(f, ch, cs[..|cs| - 1]) + VisitsFrom(f, ch, cs[|cs| - 1])
  }

  lemma RootChains(f: Forest)
    requires f.Valid()
    ensures forall r :: r in f.roots ==> ValidChain(f, [] + [r])
  {
  }

  /** The pre-order walk of the whole forest: roots in list order, children in list order. */
  ghost function Visits(f: Forest): (w: seq<Visit>)
    requires f.Valid()
    ensures forall v :: v in w ==> v.node < |f.children|
  {
    RootChains(f);
    VisitsOf(f, [], f.roots)
  }

  /** A visit of a sibling walk belongs to the walk of exactly the sibling it descends from. */
  lemma {:induction false} VisitsOfMember(f: Forest, ch: seq<nat>, cs: seq<nat>, u: Visit)
    requires f.Valid() && forall c :: c in cs ==> ValidChain(f, ch + [c])
    ensures u in VisitsOf(f, ch, cs) <==> exists j :: 0 <= j < |cs| && u in VisitsFrom(f, ch, cs[j])
    decreases |cs|
  {
    if cs != [] {
      var init := cs[..|cs| - 1];
      VisitsOfMember(f, ch, init, u);
      assert forall j :: 0 <= j < |init| ==> init[j] == cs[j];
    }
  }

  /** Every visit of a subtree walk is a downward path through the subtree's root. */
  lemma {:induction false} VisitsFromShape(f: Forest, ch: seq<nat>, node: nat, u: Visit)
    requires f.Valid() && ValidChain(f, ch + [node]) && u in VisitsFrom(f, ch, node)
    ensures ValidChain(f, u.chain + [u.node])
    ensures |ch| <= |u.chain| && (u.chain + [u.node])[..|ch| + 1] == ch + [node]
    decreases |f.children| - |ch|
  {
    if u != Visit(node, ch) {
      ChildrenChains(f, ch, node);
      ChainBound(f, ch + [node]);
      var cs := f.children[node];
      VisitsOfMember(f, ch + [node], cs, u);
      var j :| 0 <= j < |cs| && u in VisitsFrom(f, ch + [node], cs[j]);
      VisitsFromShape(f, ch + [node], cs[j], u);
      var full := u.chain + [u.node];
      assert full[..|ch| + 1] == full[..|ch| + 2][..|ch| + 1];
    }
  }

  lemma VisitsOfShape(f: Forest, ch: seq<nat>, cs: seq<nat>, u: Visit)
    requires f.Valid() && (forall c :: c in cs ==> ValidChain(f, ch + [c])) && u in VisitsOf(f, ch, cs)
    ensures ValidChain(f, u.chain + [u.node])
    ensures |ch| <= |u.chain| && (u.chain + [u.node])[..|ch|] == ch && (u.chain + [u.node])[|ch|] in cs
  {
    VisitsOfMember(f, ch, cs, u);
    var j :| 0 <= j < |cs| && u in VisitsFrom(f, ch, cs[j]);
    VisitsFromShape(f, ch, cs[j], u);
    var full := u.chain + [u.node];
    assert full[..|ch|] == full[..|ch| + 1][..|ch|];
    assert full[|ch|] == full[..|ch| + 1][|ch|];
  }

  /** Every downward path through `node` ends in a visit of `node`'s subtree walk. */
  lemma {:induction false} ChainInWalk(f: Forest, ch: seq<nat>, node: nat, anc: seq<nat>, x: nat)
    requires f.Valid() && ValidChain(f, ch + [node]) && ValidChain(f, anc + [x])
    requires |ch| <= |anc| && (anc + [x])[..|ch| + 1] == ch + [node]
    ensures Visit(x, anc) in VisitsFrom(f, ch, node)
    decreases |anc| - |ch|
  {
    var full := anc + [x];
    if |anc| == |ch| {
      assert anc == full[..|ch|] == ch;
      assert x == full[|ch|] == node;
    } else {
      assert full[|ch|] == node;
      var next := full[|ch| + 1];
      assert next in f.children[node];
      ChainExtend(f, ch + [node], next);
      assert full[..|ch| + 2] == ch + [node] + [next] by {
        assert full[..|ch| + 2] == full[..|ch| + 1] + [next];
      }
      ChainInWalk(f, ch + [node], next, anc, x);
      ChainBound(f, ch + [node]);
      ChildrenChains(f, ch, node);
      var cs := f.children[node];
      var j :| 0 <= j < |cs| && cs[j] == next;
      VisitsOfMember(f, ch + [node], cs, Visit(x, anc));
    }
  }

  /** Every node on a downward path from a root is reached by the walk of the forest. */
  lemma ChainReached(f: Forest, anc: seq<nat>, x: nat)
    requires f.Valid() && ValidChain(f, anc + [x])
    ensures Visit(x, anc) in Visits(f)
  {
    var full := anc + [x];
    var r := full[0];
    ChainPrefix(f, full, 1);
    assert full[..1] == [] + [r];
    ChainInWalk(f, [], r, anc, x);
    RootChains(f);
    var j :| 0 <= j < |f.roots| && f.roots[j] == r;
    VisitsOfMember(f, [], f.roots, Visit(x, anc));
  }

  /** The ancestors of a visit below `node` are visited in `node`'s subtree walk, or are above it. */
  lemma AncestorInWalk(f: Forest, ch: seq<nat>, node: nat, u: Visit, j: nat)
    requires f.Valid() && ValidChain(f, ch + [node]) && u in VisitsFrom(f, ch, node)
    requires |ch| <= j < |u.chain|
    ensures Visit(u.chain[j], u.chain[..j]) in VisitsFrom(f, ch, node)
  {
    VisitsFromShape(f, ch, node, u);
    var full := u.chain + [u.node];
    ChainPrefix(f, full, j + 1);
    assert full[..j + 1] == u.chain[..j] + [u.chain[j]];
    assert (u.chain[..j] + [u.chain[j]])[..|ch| + 1] == full[..|ch| + 1];
    ChainInWalk(f, ch, node, u.chain[..j], u.chain[j]);
  }

  /** Two visits of the same node inside the walks of siblings `c1` and `c2` force `c1 == c2`. */
  lemma SameNodeSameBranch(f: Forest, ch: seq<nat>, c1: nat, c2: nat, u1: Visit, u2: Visit)
    requires f.Valid() && ValidChain(f, ch + [c1]) && ValidChain(f, ch + [c2])
    requires u1 in VisitsFrom(f, ch, c1) && u2 in VisitsFrom(f, ch, c2)
    ensures u1.node == u2.node ==> c1 == c2
  {
    VisitsFromShape(f, ch, c1, u1);
    VisitsFromShape(f, ch, c2, u2);
    if u1.node == u2.node {
      ChainUnique(f, u1.chain, u2.chain, u1.node);
      var full := u1.chain + [u1.node];
      assert c1 == (ch + [c1])[|ch|] == full[..|ch| + 1][|ch|];
      assert c2 == (ch + [c2])[|ch|] == full[..|ch| + 1][|ch|];
    }
  }

  /** The walks of two different siblings share no node. */
  lemma SiblingsDisjoint(f: Forest, ch: seq<nat>, cs: seq<nat>, k: nat)
    requires f.Valid() && (forall c :: c in cs ==> ValidChain(f, ch + [c])) && NoDup(cs) && k < |cs|
    ensures Nodes(VisitsOf(f, ch, cs[..k])) !! Nodes(VisitsFrom(f, ch, cs[k]))
  {
    var pre := cs[..k];
    forall x | x in Nodes(VisitsOf(f, ch, pre)) ensures x !in Nodes(VisitsFrom(f, ch, cs[k])) {
      var u1 :| u1 in VisitsOf(f, ch, pre) && u1.node == x;
      VisitsOfMember(f, ch, pre, u1);
      var j :| 0 <= j < |pre| && u1 in VisitsFrom(f, ch, pre[j]);
      assert pre[j] == cs[j] != cs[k];
      forall u2 | u2 in VisitsFrom(f, ch, cs[k]) ensures u2.node != x {
        SameNodeSameBranch(f, ch, pre[j], cs[k], u1, u2);
      }
    }
  }

  /** A node visited in the walk below `ch` is not itself in `ch`. */
  lemma VisitNotInChain(f: Forest, ch: seq<nat>, node: nat, u: Visit)
    requires f.Valid() && ValidChain(f, ch + [node]) && u in VisitsFrom(f, ch, node)
    ensures u.node !in ch && u.node < |f.children|
  {
    VisitsFromShape(f, ch, node, u);
    NotOwnAncestor(f, u.chain, u.node);
    HolderOf(f, u.chain, u.node);
    var full := u.chain + [u.node];
    assert full[|u.chain|] == u.node;
    forall j | 0 <= j < |ch| ensures ch[j] != u.node {
      assert ch[j] == full[..|ch| + 1][j] == u.chain[j];
    }
  }

  /** The walk of a child's subtree is part of the walk of its parent's subtree. */
  lemma ChildWalkInside(f: Forest, ch: seq<nat>, node: nat, c: nat, u: Visit)
    requires f.Valid() && ValidChain(f, ch + [node]) && node < |f.children| && c in f.children[node]
    requires u in VisitsFrom(f, ch + [node], c)
    ensures ValidChain(f, ch + [node] + [c]) && u in VisitsFrom(f, ch, node)
  {
    ChildrenChains(f, ch, node);
    var cs := f.children[node];
    var j :| 0 <= j < |cs| && cs[j] == c;
    VisitsOfMember(f, ch + [node], cs, u);
  }

  /** Sibling lists with the same elements produce walks over the same nodes. */
  lemma SameSiblingsSameNodes(f: Forest, ch: seq<nat>, cs1: seq<nat>, cs2: seq<nat>)
    requires f.Valid() && forall c :: c in cs1 ==> ValidChain(f, ch + [c])
    requires forall c :: c in cs1 <==> c in cs2
    ensures Nodes(VisitsOf(f, ch, cs1)) == Nodes(VisitsOf(f, ch, cs2))
  {
    forall x | x in Nodes(VisitsOf(f, ch, cs1)) ensures x in Nodes(VisitsOf(f, ch, cs2)) {
      var u :| u in VisitsOf(f, ch, cs1) && u.node == x;
      VisitsOfMember(f, ch, cs1, u);
      var j :| 0 <= j < |cs1| && u in VisitsFrom(f, ch, cs1[j]);
      assert cs1[j] in cs1;
      var i :| 0 <= i < |cs2| && cs2[i] == cs1[j];
      VisitsOfMember(f, ch, cs2, u);
    }
    forall x | x in Nodes(VisitsOf(f, ch, cs2)) ensures x in Nodes(VisitsOf(f, ch, cs1)) {
      var u :| u in VisitsOf(f, ch, cs2) && u.node == x;
      VisitsOfMember(f, ch, cs2, u);
      var j :| 0 <= j < |cs2| && u in VisitsFrom(f, ch, cs2[j]);
      assert cs2[j] in cs2;
      var i :| 0 <= i < |cs1| && cs1[i] == cs2[j];
      VisitsOfMember(f, ch, cs1, u);
    }
  }

  /** Reordering each children list (keeping its elements and their uniqueness) keeps a forest valid. */
  lemma ValidAfterReorder(f: Forest, g: Forest)
    requires f.Valid() && g.roots == f.roots && |g.children| == |f.children|
    requires forall p :: 0 <= p < |f.children| ==> multiset(g.children[p]) == multiset(f.children[p]) && NoDup(g.children[p])
    ensures g.Valid()
  {
    forall p, c | 0 <= p < |f.children| && c in g.children[p] ensures c in f.children[p] {
      assert c in multiset(g.children[p]);
    }
  }

  /** The nodes of a sibling walk grow by the nodes of the next sibling's subtree. */
  lemma NodesOfSnoc(f: Forest, ch: seq<nat>, cs: seq<nat>, k: nat)
    requires f.Valid() && (forall c :: c in cs ==> ValidChain(f, ch + [c])) && k < |cs|
    ensures Nodes(VisitsOf(f, ch, cs[..k + 1])) == Nodes(VisitsOf(f, ch, cs[..k])) + Nodes(VisitsFrom(f, ch, cs[k]))
  {
    assert cs[..k + 1][..k] == cs[..k];
  }

  /** The nodes of a subtree walk: its root and the nodes of its children's walks. */
  lemma NodesOfFrom(f: Forest, ch: seq<nat>, node: nat)
    requires f.Valid() && ValidChain(f, ch + [node])
    ensures node < |f.children| && forall c :: c in f.children[node] ==> ValidChain(f, ch + [node] + [c])
    ensures Nodes(VisitsFrom(f, ch, node)) == {node} + Nodes(VisitsOf(f, ch + [node], f.children[node]))
  {
    ChildrenChains(f, ch, node);
  }

  /** The subtree walk of one sibling lies inside the walk of all the siblings. */
  lemma NodesOfOne(f: Forest, ch: seq<nat>, cs: seq<nat>, k: nat)
    requires f.Valid() && (forall c :: c in cs ==> ValidChain(f, ch + [c])) && k < |cs|
    ensures Nodes(VisitsFrom(f, ch, cs[k])) <= Nodes(VisitsOf(f, ch, cs))
  {
    forall x | x in Nodes(VisitsFrom(f, ch, cs[k])) ensures x in Nodes(VisitsOf(f, ch, cs)) {
      var u :| u in VisitsFrom(f, ch, cs[k]) && u.node == x;
      VisitsOfMember(f, ch, cs, u);
    }
  }

  /** No node is met again below itself. */
  lemma NotBelowItself(f: Forest, ch: seq<nat>, node: nat)
    requires f.Valid() && ValidChain(f, ch + [node])
    ensures node < |f.children| && node !in Nodes(VisitsOf(f, ch + [node], f.children[node]))
  {
    ChildrenChains(f, ch, node);
    var cs := f.children[node];
    forall u | u in VisitsOf(f, ch + [node], cs) ensures u.node != node {
      VisitsOfMember(f, ch + [node], cs, u);
      var j :| 0 <= j < |cs| && u in VisitsFrom(f, ch + [node], cs[j]);
      assert cs[j] in cs;
      VisitNotInChain(f, ch + [node], cs[j], u);
    }
  }

  /** A node is reached when the walk of the forest passes through it. */
  ghost predicate Reached(f: Forest, x: nat)
    requires f.Valid()
  {
    x in Nodes(Visits(f))
  }

  /** The walk reaches exactly the nodes that lie on a downward path from a root. */
  lemma ReachedIff(f: Forest, x: nat)
    requires f.Valid()
    ensures Reached(f, x) <==> exists anc :: ValidChain(f, anc + [x])
  {
    RootChains(f);
    if Reached(f, x) {
      var u :| u in Visits(f) && u.node == x;
      VisitsOfShape(f, [], f.roots, u);
    }
    forall anc | ValidChain(f, anc + [x]) ensures Reached(f, x) {
      ChainReached(f, anc, x);
    }
  }

  /** The ancestors of a visit in a subtree walk are above the subtree or inside its walk, whose nodes are never above it. */
  lemma WalkFromClosed(f: Forest, ch: seq<nat>, node: nat)
    requires f.Valid() && ValidChain(f, ch + [node])
    ensures forall u, x :: u in VisitsFrom(f, ch, node) && x in u.chain ==> x in ch || x in Nodes(VisitsFrom(f, ch, node))
    ensures forall x :: x in Nodes(VisitsFrom(f, ch, node)) ==> x !in ch
  {
    var w := VisitsFrom(f, ch, node);
    forall u, x | u in w && x in u.chain ensures x in ch || x in Nodes(w) {
      VisitsFromShape(f, ch, node, u);
      var j :| 0 <= j < |u.chain| && u.chain[j] == x;
      if j >= |ch| {
        AncestorInWalk(f, ch, node, u, j);
      } else {
        var full := u.chain + [u.node];
        assert full[..|ch| + 1][j] == ch[j];
      }
    }
    forall x | x in Nodes(w) ensures x !in ch {
      var u :| u in w && u.node == x;
      VisitNotInChain(f, ch, node, u);
    }
  }

  /** The same for a sibling walk; besides, every visit in it has `ch` as the start of its chain. */
  lemma WalkOfClosed(f: Forest, ch: seq<nat>, cs: seq<nat>)
    requires f.Valid() && forall c :: c in cs ==> ValidChain(f, ch + [c])
    ensures forall u, x :: u in VisitsOf(f, ch, cs) && x in u.chain ==> x in ch || x in Nodes(VisitsOf(f, ch, cs))
    ensures forall x :: x in Nodes(VisitsOf(f, ch, cs)) ==> x !in ch
    ensures forall u :: u in VisitsOf(f, ch, cs) ==> |ch| <= |u.chain| && u.chain[..|ch|] == ch
  {
    var w := VisitsOf(f, ch, cs);
    forall u | u in w ensures (forall x :: x in u.chain ==> x in ch || x in Nodes(w)) && u.node !in ch
      && |ch| <= |u.chain| && u.chain[..|ch|] == ch
    {
      VisitsOfMember(f, ch, cs, u);
      var j :| 0 <= j < |cs| && u in VisitsFrom(f, ch, cs[j]);
      WalkFromClosed(f, ch, cs[j]);
      NodesOfOne(f, ch, cs, j);
      VisitsOfShape(f, ch, cs, u);
      var full := u.chain + [u.node];
      assert full[..|ch|] == u.chain[..|ch|];
    }
  }

  /** No node occurs at two positions of the walk `w`. */
  ghost predicate OnceEach(w: seq<Visit>) {
    forall a, b :: 0 <= a < b < |w| ==> w[a].node != w[b].node
  }

  lemma OnceConcat(w1: seq<Visit>, w2: seq<Visit>)
    requires OnceEach(w1) && OnceEach(w2) && Nodes(w1) !! Nodes(w2)
    ensures OnceEach(w1 + w2)
  {
    var w := w1 + w2;
    forall a, b | 0 <= a < b < |w| ensures w[a].node != w[b].node {
      if a < |w1| && b >= |w1| {
        assert w[a] == w1[a] && w[a].node in Nodes(w1);
        assert w[b] == w2[b - |w1|] && w[b].node in Nodes(w2);
      } else if a >= |w1| {
        assert w[a] == w2[a - |w1|] && w[b] == w2[b - |w1|];
      }
    }
  }

  /** The walk of a subtree passes through each of its nodes once. */
  lemma {:induction false} WalkFromOnce(f: Forest, ch: seq<nat>, node: nat)
    requires f.Valid() && ValidChain(f, ch + [node])
    ensures OnceEach(VisitsFrom(f, ch, node))
    decreases |f.children| - |ch|, 0
  {
    ChildrenChains(f, ch, node);
    ChainBound(f, ch + [node]);
    NotBelowItself(f, ch, node);
    var rest := VisitsOf(f, ch + [node], f.children[node]);
    WalkOfOnce(f, ch + [node], f.children[node]);
    OnceConcat([Visit(node, ch)], rest);
  }

  /** The walk of duplicate-free siblings passes through each of its nodes once. */
  lemma {:induction false} WalkOfOnce(f: Forest, ch: seq<nat>, cs: seq<nat>)
    requires f.Valid() && (forall c :: c in cs ==> ValidChain(f, ch + [c])) && NoDup(cs)
    ensures OnceEach(VisitsOf(f, ch, cs))
    decreases |f.children| - |ch|, |cs|
  {
    if cs != [] {
      var k := |cs| - 1;
      assert cs[0] in cs && cs[k] in cs;
      ChainBound(f, ch + [cs[0]]);
      var init := cs[..k];
      assert forall j :: 0 <= j < k ==> init[j] == cs[j];
      WalkOfOnce(f, ch, init);
      WalkFromOnce(f, ch, cs[k]);
      SiblingsDisjoint(f, ch, cs, k);
      OnceConcat(VisitsOf(f, ch, init), VisitsFrom(f, ch, cs[k]));
    }
  }

  /** The walk of the forest passes through every node at most once. */
  lemma WalkVisitsOnce(f: Forest)
    requires f.Valid()
    ensures OnceEach(Visits(f))
  {
    RootChains(f);
    WalkOfOnce(f, [], f.roots);
  }

  /** Forests with the same roots and the same members in each children list reach the same nodes. */
  lemma SameMembersSameReach(f: Forest, g: Forest)
    requires f.Valid() && g.Valid() && g.roots == f.roots && |g.children| == |f.children|
    requires forall p, c :: 0 <= p < |f.children| ==> (c in g.children[p] <==> c in f.children[p])
    ensures forall x :: Reached(f, x) <==> Reached(g, x)
  {
    forall x ensures Reached(f, x) <==> Reached(g, x) {
      ReachedIff(f, x);
      ReachedIff(g, x);
      assert forall anc :: ValidChain(f, anc + [x]) <==> ValidChain(g, anc + [x]);
    }
  }
}
