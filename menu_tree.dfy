/**
 * The shape of a whole menu: the nodes in creation order (a node is named
 * by its index), and the menu's `nodeList` of top-level nodes. Nodes are
 * only ever appended, under an existing node or under the menu, so a
 * child's index is always larger than its parent's.
 */
module MenuTree {
  import opened Wrappers
  import opened MenuNode

  /** The menu's own depth; top-level nodes are one below it. */
  const MenuDepth: nat := 0

  /** Every parent index points to an earlier node. */
  ghost predicate ParentsBelow(ns: seq<Node>)
  {
    forall c {:trigger ns[c].parent} :: 0 <= c < |ns| && ns[c].parent.NodeAt? ==> ns[c].parent.index < c
  }

  /** The entries at positions `a` and `b` of `s` are in strictly increasing order. */
  ghost predicate InOrder(s: seq<nat>, a: int, b: int)
  {
    0 <= a < b < |s| ==> s[a] < s[b]
  }

  /**
   * Strictly increasing. Stated through `InOrder` so that a pair of
   * positions is only compared where a proof names it.
   */
  ghost predicate Increasing(s: seq<nat>)
  {
    forall a, b :: InOrder(s, a, b)
  }

  lemma IncreasingAppend(s: seq<nat>, x: nat)
    requires Increasing(s) && (forall i :: 0 <= i < |s| ==> s[i] < x)
    ensures Increasing(s + [x])
  {
    forall a, b ensures InOrder(s + [x], a, b) {
      if 0 <= a < b < |s| + 1 {
        if b == |s| {
          assert s[a] < x;
        } else {
          assert InOrder(s, a, b);
        }
      }
    }
  }

  /** Each child index is a later node whose parent is this node. */
  ghost predicate ChildLinks(ns: seq<Node>)
  {
    && (forall i, k :: 0 <= i < |ns| && 0 <= k < |ns[i].childNodes| ==>
          i < ns[i].childNodes[k] < |ns| && ns[ns[i].childNodes[k]].parent == NodeAt(i))
    && (forall i :: 0 <= i < |ns| ==> Increasing(ns[i].childNodes))
  }

  /** Each top-level index is a node whose parent is the menu. */
  ghost predicate RootLinks(ns: seq<Node>, roots: seq<nat>)
  {
    && (forall k :: 0 <= k < |roots| ==> roots[k] < |ns| && ns[roots[k]].parent == Menu)
    && Increasing(roots)
  }

  /**
   * Each node is listed by its parent, is one level below it, and has the
   * element kind its parent gives to children.
   */
  ghost predicate ParentLinks(ns: seq<Node>, roots: seq<nat>)
  {
    forall c {:trigger ns[c].parent} :: 0 <= c < |ns| ==>
      match ns[c].parent
      case Menu => c in roots && ns[c].depth == MenuDepth + 1 && ns[c].elementType == Li
      case NodeAt(p) =>
        && p < c
        && c in ns[p].childNodes
        && ns[c].depth == ns[p].depth + 1
        && ns[c].elementType == ChildElementType(ns[p].elementType)
  }

  /**
   * What rendering needs of the tree: parents come before their nodes and
   * children after theirs, and every listed index names a node.
   */
  ghost predicate Shaped(ns: seq<Node>, roots: seq<nat>)
  {
    && ParentsBelow(ns)
    && (forall i, k :: 0 <= i < |ns| && 0 <= k < |ns[i].childNodes| ==> i < ns[i].childNodes[k] < |ns|)
    && (forall k :: 0 <= k < |roots| ==> roots[k] < |ns|)
  }

  ghost predicate WellFormed(ns: seq<Node>, roots: seq<nat>)
  {
    Shaped(ns, roots) && ChildLinks(ns) && RootLinks(ns, roots) && ParentLinks(ns, roots)
  }

  ghost predicate ValidParent(ns: seq<Node>, par: Parent)
  {
    par.NodeAt? ==> par.index < |ns|
  }

  /** The ordered children of the menu or of a node. */
  function ChildrenOf(ns: seq<Node>, roots: seq<nat>, par: Parent): seq<nat>
    requires ValidParent(ns, par)
  {
    match par
    case Menu => roots
    case NodeAt(p) => ns[p].childNodes
  }

  /** Node `j` is first among its siblings. */
  ghost predicate IsFirstChild(ns: seq<Node>, roots: seq<nat>, j: nat)
    requires WellFormed(ns, roots) && j < |ns|
  {
    var cs := ChildrenOf(ns, roots, ns[j].parent);
    |cs| > 0 && cs[0] == j
  }

  /** Node `j` is last among its siblings. */
  ghost predicate IsLastChild(ns: seq<Node>, roots: seq<nat>, j: nat)
    requires WellFormed(ns, roots) && j < |ns|
  {
    var cs := ChildrenOf(ns, roots, ns[j].parent);
    |cs| > 0 && cs[|cs| - 1] == j
  }

  // ---------------------------------------------------------------------
  // Building the tree
  // ---------------------------------------------------------------------

  /**
   * The nodes after `addMenuNode` on node `p`: a new last node under `p`,
   * one level deeper, of the kind `p` gives its children, and `p`'s child
   * list extended by it.
   */
  function WithChild(ns: seq<Node>, p: nat, text: string, route: Option<string>): (r: seq<Node>)
    requires p < |ns|
    ensures |r| == |ns| + 1
    ensures r[p].childNodes == ns[p].childNodes + [|ns|]
    ensures r[p] == ns[p].(childNodes := r[p].childNodes)
    ensures forall j :: 0 <= j < |ns| && j != p ==> r[j] == ns[j]
    ensures r[|ns|] == NewNode(NodeAt(p), text, route, ChildElementType(ns[p].elementType), ns[p].depth + 1)
  {
    var child := NewNode(NodeAt(p), text, route, ChildElementType(ns[p].elementType), ns[p].depth + 1);
    ns[p := ns[p].(childNodes := ns[p].childNodes + [|ns|])] + [child]
  }

  /** The nodes after the menu's `addMenuNode`: a new last `li` node at level one. */
  function WithTopLevel(ns: seq<Node>, text: string, route: Option<string>): (r: seq<Node>)
    ensures |r| == |ns| + 1 && r[..|ns|] == ns
    ensures r[|ns|] == NewNode(Menu, text, route, Li, MenuDepth + 1)
  {
    ns + [NewNode(Menu, text, route, Li, MenuDepth + 1)]
  }

  /** Adding a child keeps the tree well formed. */
  lemma WithChildWellFormed(ns: seq<Node>, roots: seq<nat>, p: nat, text: string, route: Option<string>)
    requires WellFormed(ns, roots) && p < |ns|
    ensures WellFormed(WithChild(ns, p, text, route), roots)
  {
    var r := WithChild(ns, p, text, route);
    WithChildChildLinks(ns, roots, p, text, route);
    WithChildParentLinks(ns, roots, p, text, route);
    assert ParentsBelow(r);
    assert RootLinks(r, roots);
  }

  lemma WithChildChildLinks(ns: seq<Node>, roots: seq<nat>, p: nat, text: string, route: Option<string>)
    requires WellFormed(ns, roots) && p < |ns|
    ensures ChildLinks(WithChild(ns, p, text, route))
  {
    var r := WithChild(ns, p, text, route);
    var n := |ns|;
    forall i, k | 0 <= i < |r| && 0 <= k < |r[i].childNodes|
      ensures i < r[i].childNodes[k] < |r| && r[r[i].childNodes[k]].parent == NodeAt(i)
    {
      if i == p && k == |ns[p].childNodes| {
        assert r[i].childNodes[k] == n;
      } else {
        assert i < n && r[i].childNodes[k] == ns[i].childNodes[k];
      }
    }
    forall i | 0 <= i < |r| ensures Increasing(r[i].childNodes) {
      if i == p {
        assert forall k :: 0 <= k < |ns[p].childNodes| ==> ns[p].childNodes[k] < n;
        IncreasingAppend(ns[p].childNodes, n);
      } else if i < n {
        assert r[i] == ns[i];
      } else {
        assert r[i].childNodes == [];
      }
    }
  }

  lemma WithChildParentLinks(ns: seq<Node>, roots: seq<nat>, p: nat, text: string, route: Option<string>)
    requires WellFormed(ns, roots) && p < |ns|
    ensures ParentLinks(WithChild(ns, p, text, route), roots)
  {
    var r := WithChild(ns, p, text, route);
    var n := |ns|;
    forall c | 0 <= c < |r|
      ensures match r[c].parent
        case Menu => c in roots && r[c].depth == MenuDepth + 1 && r[c].elementType == Li
        case NodeAt(q) =>
          && q < c
          && c in r[q].childNodes
          && r[c].depth == r[q].depth + 1
          && r[c].elementType == ChildElementType(r[q].elementType)
    {
      if c == n {
        assert r[p].childNodes[|ns[p].childNodes|] == c;
      } else if r[c].parent == NodeAt(p) {
        assert ns[c].parent == NodeAt(p);
        var k :| 0 <= k < |ns[p].childNodes| && ns[p].childNodes[k] == c;
        assert r[p].childNodes[k] == c;
      } else {
        assert r[c].parent == ns[c].parent && r[c].depth == ns[c].depth && r[c].elementType == ns[c].elementType;
        if ns[c].parent.NodeAt? {
          var q := ns[c].parent.index;
          assert r[q] == ns[q];
        }
      }
    }
  }

  /** Adding a top-level node (and listing it) keeps the tree well formed. */
  lemma WithTopLevelWellFormed(ns: seq<Node>, roots: seq<nat>, text: string, route: Option<string>)
    requires WellFormed(ns, roots)
    ensures WellFormed(WithTopLevel(ns, text, route), roots + [|ns|])
  {
    var r := WithTopLevel(ns, text, route);
    var rs := roots + [|ns|];
    IncreasingAppend(roots, |ns|);
    forall i, k | 0 <= i < |r| && 0 <= k < |r[i].childNodes|
      ensures i < r[i].childNodes[k] < |r| && r[r[i].childNodes[k]].parent == NodeAt(i)
    {
      assert i < |ns|;
    }
  }

  // ---------------------------------------------------------------------
  // Subtrees
  // ---------------------------------------------------------------------

  /**
   * The ancestor-or-self of `j` whose parent is `par`, if there is one:
   * which of `par`'s children `j` sits under.
   */
  ghost function Top(ns: seq<Node>, j: nat, par: Parent): (r: Option<nat>)
    requires ParentsBelow(ns) && j < |ns|
    ensures r.Some? ==> r.value <= j && ns[r.value].parent == par
    decreases j
  {
    if ns[j].parent == par then Some(j)
    else
      match ns[j].parent
      case Menu => None
      case NodeAt(q) => Top(ns, q, par)
  }

  /** `j` is `a` or a descendant of `a`. */
  ghost predicate InSubtree(ns: seq<Node>, j: nat, a: nat)
    requires ParentsBelow(ns) && j < |ns|
  {
    j == a || Top(ns, j, NodeAt(a)).Some?
  }

  lemma InSubtreeAbove(ns: seq<Node>, j: nat, a: nat)
    requires ParentsBelow(ns) && j < |ns| && a < |ns|
    ensures InSubtree(ns, j, a) ==> a <= j
  {
    if j != a && Top(ns, j, NodeAt(a)).Some? {
      var x := Top(ns, j, NodeAt(a)).value;
      assert ns[x].parent == NodeAt(a);
    }
  }

  /** The child of `par` that `j` sits under has `j` in its subtree. */
  lemma {:induction false} TopHoldsNode(ns: seq<Node>, j: nat, par: Parent)
    requires ParentsBelow(ns) && j < |ns| && Top(ns, j, par).Some?
    ensures InSubtree(ns, j, Top(ns, j, par).value)
    decreases j
  {
    var x := Top(ns, j, par).value;
    if ns[j].parent != par {
      var q := ns[j].parent.index;
      TopHoldsNode(ns, q, par);
      assert Top(ns, q, par) == Some(x);
      if q != x {
        if ns[j].parent != NodeAt(x) {
          assert Top(ns, j, NodeAt(x)) == Top(ns, q, NodeAt(x));
        }
      }
    }
  }

  /** Every node in the subtree of a child `c` of `par` sits under `c`. */
  lemma {:induction false} TopOfSubtree(ns: seq<Node>, j: nat, c: nat, par: Parent)
    requires ParentsBelow(ns) && j < |ns| && c < |ns| && ns[c].parent == par
    requires InSubtree(ns, j, c)
    ensures Top(ns, j, par) == Some(c)
    decreases j
  {
    if j != c {
      var x := Top(ns, j, NodeAt(c)).value;
      assert ns[x].parent == NodeAt(c);
      match ns[j].parent
      case Menu =>
        assert false;
      case NodeAt(q) =>
        if ns[j].parent == par {
          // j, below c, would hang from c's own parent
          assert false;
        } else if q == c {
          assert Top(ns, j, par) == Top(ns, c, par);
        } else {
          assert Top(ns, j, NodeAt(c)) == Top(ns, q, NodeAt(c));
          TopOfSubtree(ns, q, c, par);
        }
    }
  }

  /** No node sits under one of its own children. */
  lemma TopOfSelf(ns: seq<Node>, j: nat)
    requires ParentsBelow(ns) && j < |ns|
    ensures Top(ns, j, NodeAt(j)) == None
  {
  }

  /** Every node sits under exactly one top-level node. */
  lemma {:induction false} TopLevelAncestor(ns: seq<Node>, j: nat)
    requires ParentsBelow(ns) && j < |ns|
    ensures Top(ns, j, Menu).Some?
    decreases j
  {
    if ns[j].parent != Menu {
      TopLevelAncestor(ns, ns[j].parent.index);
    }
  }
}
