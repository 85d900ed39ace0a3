/**
 * The render pass as a specification: what `toHtml()` on a node and
 * `toString()` on the menu return, and what they leave in the render
 * flags, as functions of the flags before the pass and the current route.
 *
 * A node's pass, in the order the code runs it: clear its own `isActive`;
 * build its link or label, activating the branch when its route matches
 * (for a list node the `li` wrapper's attributes are taken right here);
 * render the children in order, marking the first and the last before
 * each one renders; only then take its own element's attributes.
 */
module Render {
  import opened Wrappers
  import opened MenuNode
  import opened MenuTree

  /** The render flags of every node, and the `isActive` the menu object gets. */
  datatype Marks = Marks(flags: seq<Flags>, menuActive: bool)

  /** The render state fits the nodes of a well-formed tree. */
  ghost predicate Fits(ns: seq<Node>, roots: seq<nat>, m: Marks)
  {
    WellFormed(ns, roots) && |m.flags| == |ns|
  }

  /** The render state fits a tree that can be walked. */
  ghost predicate Sized(ns: seq<Node>, roots: seq<nat>, m: Marks)
  {
    Shaped(ns, roots) && |m.flags| == |ns|
  }

  ghost predicate Matched(ns: seq<Node>, j: nat, currentRoute: string)
    requires j < |ns|
  {
    RouteMatches(ns[j], currentRoute)
  }

  /**
   * Whether node `j` ends a render active: its own route matches or one of
   * its direct children's does. Nothing further down counts.
   */
  ghost predicate ActiveAfterRender(ns: seq<Node>, j: nat, currentRoute: string)
    requires ChildLinks(ns) && j < |ns|
  {
    || Matched(ns, j, currentRoute)
    || exists k :: 0 <= k < |ns[j].childNodes| && Matched(ns, ns[j].childNodes[k], currentRoute)
  }

  /** Some of the first `k` of `cs` has a matching route. */
  ghost predicate SomeMatched(ns: seq<Node>, cs: seq<nat>, k: nat, currentRoute: string)
    requires k <= |cs| && forall i :: 0 <= i < |cs| ==> cs[i] < |ns|
  {
    exists i :: 0 <= i < k && Matched(ns, cs[i], currentRoute)
  }

  /**
   * `activateBranch()`: the node and its immediate parent become active
   * (the menu object, when the node is top-level). Nothing else changes.
   */
  ghost function Activated(ns: seq<Node>, m: Marks, id: nat): (r: Marks)
    requires ParentsBelow(ns) && |m.flags| == |ns| && id < |ns|
    ensures |r.flags| == |ns|
    ensures r.flags[id] == m.flags[id].(isActive := true)
    ensures ns[id].parent.NodeAt? ==>
      var p := ns[id].parent.index;
      r.flags[p] == m.flags[p].(isActive := true)
    ensures forall j :: 0 <= j < |ns| && j != id && ns[id].parent != NodeAt(j) ==> r.flags[j] == m.flags[j]
    ensures r.menuActive == (m.menuActive || ns[id].parent == Menu)
  {
    var flags := m.flags[id := m.flags[id].(isActive := true)];
    match ns[id].parent
    case NodeAt(p) => Marks(flags[p := flags[p].(isActive := true)], m.menuActive)
    case Menu => Marks(flags, true)
  }

  /** The `isFirst`/`isLast` marking a sibling gets before it renders. */
  function Placed(f: Flags, key: nat, count: nat): Flags
  {
    var f1 := if key == 0 then f.(isFirst := true) else f;
    if key == count - 1 then f1.(isLast := true) else f1
  }

  function Lo(par: Parent): int
  {
    match par
    case Menu => -1
    case NodeAt(p) => p
  }

  /** What `getInnerHtml()` does to the flags: activate the branch when the route matches. */
  ghost function Lit(ns: seq<Node>, m: Marks, id: nat, currentRoute: string): (r: Marks)
    requires ParentsBelow(ns) && |m.flags| == |ns| && id < |ns|
    ensures |r.flags| == |ns|
  {
    if Matched(ns, id, currentRoute) then Activated(ns, m, id) else m
  }

  /** The first thing `toHtml()` does: clear the node's own `isActive`. */
  function Reset(m: Marks, id: nat): (r: Marks)
    requires id < |m.flags|
    ensures |r.flags| == |m.flags|
  {
    m.(flags := m.flags[id := m.flags[id].(isActive := false)])
  }

  /** The marking the `key`-th child of `par` gets just before it renders. */
  ghost function PlaceChild(ns: seq<Node>, roots: seq<nat>, m: Marks, par: Parent, key: nat): (r: Marks)
    requires Sized(ns, roots, m) && ValidParent(ns, par) && key < |ChildrenOf(ns, roots, par)|
    ensures |r.flags| == |ns|
  {
    var cs := ChildrenOf(ns, roots, par);
    var c := cs[key];
    m.(flags := m.flags[c := Placed(m.flags[c], key, |cs|)])
  }

  /** The flags `toHtml()` on node `id` leaves behind. */
  ghost function NodeMarks(ns: seq<Node>, roots: seq<nat>, m: Marks, id: nat, currentRoute: string): (r: Marks)
    requires Sized(ns, roots, m) && id < |ns|
    ensures |r.flags| == |ns|
    decreases |ns| - id, 1, 0
  {
    SiblingsMarks(ns, roots, Lit(ns, Reset(m, id), id, currentRoute), NodeAt(id), |ns[id].childNodes|, currentRoute)
  }

  /** The flags rendering the first `k` children of `par` in order leaves behind. */
  ghost function SiblingsMarks(ns: seq<Node>, roots: seq<nat>, m: Marks, par: Parent, k: nat, currentRoute: string): (r: Marks)
    requires Sized(ns, roots, m) && ValidParent(ns, par) && k <= |ChildrenOf(ns, roots, par)|
    ensures |r.flags| == |ns|
    decreases |ns| - Lo(par), 0, k
  {
    if k == 0 then m
    else
      var placed := PlaceChild(ns, roots, SiblingsMarks(ns, roots, m, par, k - 1, currentRoute), par, k - 1);
      NodeMarks(ns, roots, placed, ChildrenOf(ns, roots, par)[k - 1], currentRoute)
  }

  /**
   * The markup `toHtml()` on node `id` returns: its element, holding the
   * link or label (with the flags as they are after `getInnerHtml()`)
   * followed by the children's markup, with its own attributes taken from
   * the flags the children leave behind.
   */
  ghost function NodeHtml(ns: seq<Node>, roots: seq<nat>, m: Marks, id: nat, currentRoute: string): Markup
    requires Sized(ns, roots, m) && id < |ns|
    decreases |ns| - id, 1, 0
  {
    var lit := Lit(ns, Reset(m, id), id, currentRoute);
    var inner := InnerHtml(ns[id], lit.flags[id], currentRoute);
    var n := |ns[id].childNodes|;
    var f := SiblingsMarks(ns, roots, lit, NodeAt(id), n, currentRoute).flags[id];
    var attrs := if IsList(ns[id]) then GetListHtmlAttributes(ns[id], f) else GetRenderHtmlAttributes(ns[id], f);
    Element(TagName(ns[id].elementType), attrs, [inner] + SiblingsHtml(ns, roots, lit, NodeAt(id), n, currentRoute))
  }

  /** The markup of the first `k` children of `par`, rendered in order. */
  ghost function SiblingsHtml(ns: seq<Node>, roots: seq<nat>, m: Marks, par: Parent, k: nat, currentRoute: string): (r: seq<Markup>)
    requires Sized(ns, roots, m) && ValidParent(ns, par) && k <= |ChildrenOf(ns, roots, par)|
    ensures |r| == k
    decreases |ns| - Lo(par), 0, k
  {
    if k == 0 then []
    else SiblingsHtml(ns, roots, m, par, k - 1, currentRoute) + [ChildHtml(ns, roots, m, par, k - 1, currentRoute)]
  }

  /** The markup of the `key`-th child of `par`, marked and rendered after the ones before it. */
  ghost function ChildHtml(ns: seq<Node>, roots: seq<nat>, m: Marks, par: Parent, key: nat, currentRoute: string): Markup
    requires Sized(ns, roots, m) && ValidParent(ns, par) && key < |ChildrenOf(ns, roots, par)|
    decreases |ns| - Lo(par), 0, key
  {
    var placed := PlaceChild(ns, roots, SiblingsMarks(ns, roots, m, par, key, currentRoute), par, key);
    NodeHtml(ns, roots, placed, ChildrenOf(ns, roots, par)[key], currentRoute)
  }

  /** The markup `toString()` on the menu returns, once a request is bound. */
  ghost function MenuHtml(ns: seq<Node>, roots: seq<nat>, attrs: Attributes, m: Marks, currentRoute: string): Markup
    requires Sized(ns, roots, m)
  {
    Element("ul", attrs, SiblingsHtml(ns, roots, m, Menu, |roots|, currentRoute))
  }

  // ---------------------------------------------------------------------
  // The flags a render leaves behind
  // ---------------------------------------------------------------------

  /**
   * What `toHtml()` on `id` leaves in the flags `r`, starting from `m`,
   * seen from node `j`:
   * - in `id`'s subtree, `isActive` holds exactly when `j`'s route or a
   *   direct child's route matches (whatever it was before), and the
   *   position flags of every node below `id` are set when it is first or
   *   last among its siblings and are otherwise left as they were; `id`'s
   *   own position flags are left as they were;
   * - the immediate parent of `id` only gains `isActive`, and only when
   *   `id`'s own route matches (the menu object, for a top-level node);
   * - every other node is untouched.
   */
  ghost predicate NodePost(ns: seq<Node>, roots: seq<nat>, m: Marks, id: nat, currentRoute: string, j: nat, r: Marks)
    requires Fits(ns, roots, m) && id < |ns| && j < |ns| && |r.flags| == |ns|
  {
    && (InSubtree(ns, j, id) ==>
          && r.flags[j].isActive == ActiveAfterRender(ns, j, currentRoute)
          && r.flags[j].isFirst == (m.flags[j].isFirst || (j != id && IsFirstChild(ns, roots, j)))
          && r.flags[j].isLast == (m.flags[j].isLast || (j != id && IsLastChild(ns, roots, j))))
    && (!InSubtree(ns, j, id) && ns[id].parent != NodeAt(j) ==> r.flags[j] == m.flags[j])
    && (ns[id].parent == NodeAt(j) ==>
          r.flags[j] == m.flags[j].(isActive := m.flags[j].isActive || Matched(ns, id, currentRoute)))
    && r.menuActive == (m.menuActive || (ns[id].parent == Menu && Matched(ns, id, currentRoute)))
  }

  /**
   * What rendering the first `k` siblings under `par` leaves in the flags
   * `r`, seen from node `j`: every node under one of them is as `NodePost`
   * says, `par` gains `isActive` when one of those siblings' routes
   * matched, and nothing else changes.
   */
  ghost predicate SiblingsPost(ns: seq<Node>, roots: seq<nat>, m: Marks, par: Parent, k: nat, currentRoute: string, j: nat, r: Marks)
    requires Fits(ns, roots, m) && ValidParent(ns, par) && k <= |ChildrenOf(ns, roots, par)| && j < |ns|
    requires |r.flags| == |ns|
  {
    var cs := ChildrenOf(ns, roots, par);
    var top := Top(ns, j, par);
    && (top.Some? && top.value in cs[..k] ==>
          && r.flags[j].isActive == ActiveAfterRender(ns, j, currentRoute)
          && r.flags[j].isFirst == (m.flags[j].isFirst || IsFirstChild(ns, roots, j))
          && r.flags[j].isLast == (m.flags[j].isLast || IsLastChild(ns, roots, j)))
    && (!(top.Some? && top.value in cs[..k]) && par != NodeAt(j) ==> r.flags[j] == m.flags[j])
    && (par == NodeAt(j) ==>
          r.flags[j] == m.flags[j].(isActive := m.flags[j].isActive || SomeMatched(ns, cs, k, currentRoute)))
    && r.menuActive == (m.menuActive || (par == Menu && SomeMatched(ns, cs, k, currentRoute)))
  }

  /** The flags `toHtml()` on `id` leaves behind, node by node. */
  lemma {:induction false} RenderNodeFlags(ns: seq<Node>, roots: seq<nat>, m: Marks, id: nat, currentRoute: string, j: nat)
    requires Fits(ns, roots, m) && id < |ns| && j < |ns|
    ensures NodePost(ns, roots, m, id, currentRoute, j, NodeMarks(ns, roots, m, id, currentRoute))
    decreases |ns| - id, 1, 0, 0
  {
    var lit := Lit(ns, Reset(m, id), id, currentRoute);
    var kids := SiblingsMarks(ns, roots, lit, NodeAt(id), |ns[id].childNodes|, currentRoute);
    SiblingsFlags(ns, roots, lit, NodeAt(id), |ns[id].childNodes|, currentRoute, j);
    NodeStep(ns, roots, m, id, currentRoute, j, lit, kids);
  }

  /** The flags rendering the first `k` siblings under `par` leaves behind, node by node. */
  lemma {:induction false} SiblingsFlags(ns: seq<Node>, roots: seq<nat>, m: Marks, par: Parent, k: nat, currentRoute: string, j: nat)
    requires Fits(ns, roots, m) && ValidParent(ns, par) && k <= |ChildrenOf(ns, roots, par)| && j < |ns|
    ensures SiblingsPost(ns, roots, m, par, k, currentRoute, j, SiblingsMarks(ns, roots, m, par, k, currentRoute))
    decreases |ns| - Lo(par), 0, k, 1
  {
    if k == 0 {
      SiblingsNone(ns, roots, m, par, currentRoute, j);
    } else {
      var c := ChildrenOf(ns, roots, par)[k - 1];
      if j == c {
        SiblingsFlagsAt(ns, roots, m, par, k, currentRoute);
      } else {
        SiblingsFlagsElsewhere(ns, roots, m, par, k, currentRoute, j);
      }
    }
  }

  /** The `k`-th sibling itself, after its own render. */
  lemma {:induction false} SiblingsFlagsAt(ns: seq<Node>, roots: seq<nat>, m: Marks, par: Parent, k: nat, currentRoute: string)
    requires Fits(ns, roots, m) && ValidParent(ns, par) && 0 < k <= |ChildrenOf(ns, roots, par)|
    ensures SiblingsPost(ns, roots, m, par, k, currentRoute, ChildrenOf(ns, roots, par)[k - 1], SiblingsMarks(ns, roots, m, par, k, currentRoute))
    decreases |ns| - Lo(par), 0, k, 0
  {
    var c := ChildrenOf(ns, roots, par)[k - 1];
    var prev := SiblingsMarks(ns, roots, m, par, k - 1, currentRoute);
    var placed := PlaceChild(ns, roots, prev, par, k - 1);
    SiblingFacts(ns, roots, par, k, currentRoute);
    SiblingsFlags(ns, roots, m, par, k - 1, currentRoute, c);
    RenderNodeFlags(ns, roots, placed, c, currentRoute, c);
    StepAtSibling(ns, roots, m, par, k, currentRoute, prev, placed, NodeMarks(ns, roots, placed, c, currentRoute));
  }

  /** Any other node, after the `k`-th sibling's render. */
  lemma {:induction false} SiblingsFlagsElsewhere(ns: seq<Node>, roots: seq<nat>, m: Marks, par: Parent, k: nat, currentRoute: string, j: nat)
    requires Fits(ns, roots, m) && ValidParent(ns, par) && 0 < k <= |ChildrenOf(ns, roots, par)| && j < |ns|
    requires j != ChildrenOf(ns, roots, par)[k - 1]
    ensures SiblingsPost(ns, roots, m, par, k, currentRoute, j, SiblingsMarks(ns, roots, m, par, k, currentRoute))
    decreases |ns| - Lo(par), 0, k, 0
  {
    var c := ChildrenOf(ns, roots, par)[k - 1];
    var prev := SiblingsMarks(ns, roots, m, par, k - 1, currentRoute);
    var placed := PlaceChild(ns, roots, prev, par, k - 1);
    var r := NodeMarks(ns, roots, placed, c, currentRoute);
    SiblingsFlags(ns, roots, m, par, k - 1, currentRoute, j);
    RenderNodeFlags(ns, roots, placed, c, currentRoute, j);
    StepPastSibling(ns, roots, m, par, k, currentRoute, j, prev, placed, r);
  }

  lemma SiblingsNone(ns: seq<Node>, roots: seq<nat>, m: Marks, par: Parent, currentRoute: string, j: nat)
    requires Fits(ns, roots, m) && ValidParent(ns, par) && j < |ns|
    ensures SiblingsPost(ns, roots, m, par, 0, currentRoute, j, SiblingsMarks(ns, roots, m, par, 0, currentRoute))
  {
    assert !SomeMatched(ns, ChildrenOf(ns, roots, par), 0, currentRoute);
  }

  /** From the flags after the children of `id` to the flags after `id`. */
  lemma NodeStep(ns: seq<Node>, roots: seq<nat>, m: Marks, id: nat, currentRoute: string, j: nat, lit: Marks, kids: Marks)
    requires Fits(ns, roots, m) && id < |ns| && j < |ns|
    requires lit == Lit(ns, Reset(m, id), id, currentRoute)
    requires |kids.flags| == |ns|
    requires SiblingsPost(ns, roots, lit, NodeAt(id), |ns[id].childNodes|, currentRoute, j, kids)
    ensures NodePost(ns, roots, m, id, currentRoute, j, kids)
  {
    var cs := ns[id].childNodes;
    assert cs[..|cs|] == cs;
    var top := Top(ns, j, NodeAt(id));
    if j == id {
      TopOfSelf(ns, id);
      assert lit.flags[id].isActive == Matched(ns, id, currentRoute);
      assert SomeMatched(ns, cs, |cs|, currentRoute)
        == (exists k :: 0 <= k < |cs| && Matched(ns, cs[k], currentRoute));
    } else if InSubtree(ns, j, id) {
      assert top.value in cs;
      InSubtreeAbove(ns, j, id);
      assert lit.flags[j] == m.flags[j];
    } else {
      assert top.None?;
    }
  }

  /** Facts about the `k`-th sibling `c` under `par` that every step uses. */
  lemma SiblingFacts(ns: seq<Node>, roots: seq<nat>, par: Parent, k: nat, currentRoute: string)
    requires WellFormed(ns, roots) && ValidParent(ns, par) && 0 < k <= |ChildrenOf(ns, roots, par)|
    ensures var cs := ChildrenOf(ns, roots, par);
      var c := cs[k - 1];
      && c < |ns|
      && ns[c].parent == par
      && cs[..k] == cs[..k - 1] + [c]
      && c !in cs[..k - 1]
      && Top(ns, c, par) == Some(c)
      && (SomeMatched(ns, cs, k, currentRoute)
            == (SomeMatched(ns, cs, k - 1, currentRoute) || Matched(ns, c, currentRoute)))
      && (par.NodeAt? ==> par.index < c)
      && (cs[0] == c <==> k == 1)
      && (cs[|cs| - 1] == c <==> k == |cs|)
  {
    var cs := ChildrenOf(ns, roots, par);
    var c := cs[k - 1];
    assert cs[..k] == cs[..k - 1] + [c];
    forall i | 0 <= i < k - 1 ensures cs[i] < c {
      assert InOrder(cs, i, k - 1);
    }
    if k > 1 {
      assert InOrder(cs, 0, k - 1);
    }
    if k < |cs| {
      assert InOrder(cs, k - 1, |cs| - 1);
    }
  }

  lemma StepAtSibling(ns: seq<Node>, roots: seq<nat>, m: Marks, par: Parent, k: nat, currentRoute: string,
                      prev: Marks, placed: Marks, r: Marks)
    requires Fits(ns, roots, m) && ValidParent(ns, par) && 0 < k <= |ChildrenOf(ns, roots, par)|
    requires |prev.flags| == |ns| && |r.flags| == |ns|
    requires Sized(ns, roots, prev) && placed == PlaceChild(ns, roots, prev, par, k - 1)
    requires SiblingsPost(ns, roots, m, par, k - 1, currentRoute, ChildrenOf(ns, roots, par)[k - 1], prev)
    requires Fits(ns, roots, placed)
    requires NodePost(ns, roots, placed, ChildrenOf(ns, roots, par)[k - 1], currentRoute, ChildrenOf(ns, roots, par)[k - 1], r)
    ensures SiblingsPost(ns, roots, m, par, k, currentRoute, ChildrenOf(ns, roots, par)[k - 1], r)
  {
    var cs := ChildrenOf(ns, roots, par);
    var c := cs[k - 1];
    SiblingFacts(ns, roots, par, k, currentRoute);
    assert prev.flags[c] == m.flags[c];
    assert (k - 1 == 0) == IsFirstChild(ns, roots, c);
    assert (k - 1 == |cs| - 1) == IsLastChild(ns, roots, c);
  }

  /** The step for any node other than the `k`-th sibling itself. */
  lemma StepPastSibling(ns: seq<Node>, roots: seq<nat>, m: Marks, par: Parent, k: nat, currentRoute: string, j: nat,
                        prev: Marks, placed: Marks, r: Marks)
    requires Fits(ns, roots, m) && ValidParent(ns, par) && 0 < k <= |ChildrenOf(ns, roots, par)| && j < |ns|
    requires |prev.flags| == |ns| && |r.flags| == |ns|
    requires Sized(ns, roots, prev) && placed == PlaceChild(ns, roots, prev, par, k - 1)
    requires j != ChildrenOf(ns, roots, par)[k - 1]
    requires SiblingsPost(ns, roots, m, par, k - 1, currentRoute, j, prev)
    requires Fits(ns, roots, placed)
    requires NodePost(ns, roots, placed, ChildrenOf(ns, roots, par)[k - 1], currentRoute, j, r)
    ensures SiblingsPost(ns, roots, m, par, k, currentRoute, j, r)
  {
    if Top(ns, j, par) == Some(ChildrenOf(ns, roots, par)[k - 1]) {
      StepBelowSibling(ns, roots, m, par, k, currentRoute, j, prev, placed, r);
    } else {
      StepAwayFromSibling(ns, roots, m, par, k, currentRoute, j, prev, placed, r);
    }
  }

  lemma StepBelowSibling(ns: seq<Node>, roots: seq<nat>, m: Marks, par: Parent, k: nat, currentRoute: string, j: nat,
                         prev: Marks, placed: Marks, r: Marks)
    requires Fits(ns, roots, m) && ValidParent(ns, par) && 0 < k <= |ChildrenOf(ns, roots, par)| && j < |ns|
    requires |prev.flags| == |ns| && |r.flags| == |ns|
    requires Sized(ns, roots, prev) && placed == PlaceChild(ns, roots, prev, par, k - 1)
    requires j != ChildrenOf(ns, roots, par)[k - 1] && Top(ns, j, par) == Some(ChildrenOf(ns, roots, par)[k - 1])
    requires SiblingsPost(ns, roots, m, par, k - 1, currentRoute, j, prev)
    requires Fits(ns, roots, placed)
    requires NodePost(ns, roots, placed, ChildrenOf(ns, roots, par)[k - 1], currentRoute, j, r)
    ensures SiblingsPost(ns, roots, m, par, k, currentRoute, j, r)
  {
    var cs := ChildrenOf(ns, roots, par);
    var c := cs[k - 1];
    SiblingFacts(ns, roots, par, k, currentRoute);
    TopHoldsNode(ns, j, par);
    if par.NodeAt? {
      TopOfSelf(ns, par.index);
    }
    assert placed.flags[j] == prev.flags[j] == m.flags[j];
  }

  lemma StepAwayFromSibling(ns: seq<Node>, roots: seq<nat>, m: Marks, par: Parent, k: nat, currentRoute: string, j: nat,
                            prev: Marks, placed: Marks, r: Marks)
    requires Fits(ns, roots, m) && ValidParent(ns, par) && 0 < k <= |ChildrenOf(ns, roots, par)| && j < |ns|
    requires |prev.flags| == |ns| && |r.flags| == |ns|
    requires Sized(ns, roots, prev) && placed == PlaceChild(ns, roots, prev, par, k - 1)
    requires j != ChildrenOf(ns, roots, par)[k - 1] && Top(ns, j, par) != Some(ChildrenOf(ns, roots, par)[k - 1])
    requires SiblingsPost(ns, roots, m, par, k - 1, currentRoute, j, prev)
    requires Fits(ns, roots, placed)
    requires NodePost(ns, roots, placed, ChildrenOf(ns, roots, par)[k - 1], currentRoute, j, r)
    ensures SiblingsPost(ns, roots, m, par, k, currentRoute, j, r)
  {
    var cs := ChildrenOf(ns, roots, par);
    var c := cs[k - 1];
    SiblingFacts(ns, roots, par, k, currentRoute);
    if InSubtree(ns, j, c) {
      TopOfSubtree(ns, j, c, par);
    }
    if par.NodeAt? {
      TopOfSelf(ns, par.index);
    }
    assert placed.flags[j] == prev.flags[j];
  }
}
