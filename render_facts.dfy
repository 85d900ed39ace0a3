/**
 * What a whole render promises, stated from the outside: the markup of a
 * node and of the menu, the flags `toString()` leaves on every node, and
 * two consequences of the code as it stands — activation that stops one
 * level up, and position flags that outlive the position.
 */
module RenderFacts {
  import opened Wrappers
  import opened MenuNode
  import opened MenuTree
  import opened Render

  /**
   * The markup of `toHtml()` on `id`: its own element kind; the link or
   * label first, then one entry per child. A list node's inner `li`
   * carries the item attributes with `isActive` as it is before any child
   * renders (only the node's own match counts), while the `ul` itself
   * carries the list attributes taken after the children, when a child's
   * match has been counted too. Position flags of `id` are left as they
   * were.
   */
  lemma NodeHtmlShape(ns: seq<Node>, roots: seq<nat>, m: Marks, id: nat, currentRoute: string)
    requires Fits(ns, roots, m) && id < |ns|
    ensures var r := NodeHtml(ns, roots, m, id, currentRoute);
      var after := NodeMarks(ns, roots, m, id, currentRoute).flags[id];
      var before := m.flags[id].(isActive := Matched(ns, id, currentRoute));
      && r.Element? && r.tag == TagName(ns[id].elementType)
      && |r.children| == 1 + |ns[id].childNodes|
      && after == m.flags[id].(isActive := ActiveAfterRender(ns, id, currentRoute))
      && (IsList(ns[id]) ==>
            && r.attrs == GetListHtmlAttributes(ns[id], after)
            && r.children[0] == Element("li", GetRenderHtmlAttributes(ns[id], before), [InnerElement(ns[id], currentRoute)]))
      && (!IsList(ns[id]) ==>
            && r.attrs == GetRenderHtmlAttributes(ns[id], after)
            && r.children[0] == InnerElement(ns[id], currentRoute))
  {
    RenderNodeFlags(ns, roots, m, id, currentRoute, id);
    TopOfSelf(ns, id);
  }

  /** Rendering later siblings leaves the markup of the earlier ones as it was. */
  lemma {:induction false} SiblingsHtmlPrefix(ns: seq<Node>, roots: seq<nat>, m: Marks, par: Parent, k: nat, currentRoute: string, i: nat)
    requires Sized(ns, roots, m) && ValidParent(ns, par) && i < k <= |ChildrenOf(ns, roots, par)|
    ensures SiblingsHtml(ns, roots, m, par, k, currentRoute)[i] == SiblingsHtml(ns, roots, m, par, i + 1, currentRoute)[i]
    decreases k
  {
    if i < k - 1 {
      SiblingsHtmlPrefix(ns, roots, m, par, k - 1, currentRoute, i);
    }
  }

  /**
   * The markup of `toString()`: a `ul` with exactly the menu's attributes
   * (no `active`, no level class), holding one `li` per top-level node in
   * `nodeList` order, each rendered after the ones before it with its
   * first/last marking applied.
   */
  lemma MenuHtmlShape(ns: seq<Node>, roots: seq<nat>, attrs: Attributes, m: Marks, currentRoute: string)
    requires Fits(ns, roots, m)
    ensures var r := MenuHtml(ns, roots, attrs, m, currentRoute);
      && r.Element? && r.tag == "ul" && r.attrs == attrs && |r.children| == |roots|
      && (forall k :: 0 <= k < |roots| ==>
            r.children[k] == ChildHtml(ns, roots, m, Menu, k, currentRoute))
      && (forall k :: 0 <= k < |roots| ==> r.children[k].Element? && r.children[k].tag == "li")
  {
    var r := MenuHtml(ns, roots, attrs, m, currentRoute);
    forall k | 0 <= k < |roots|
      ensures r.children[k] == ChildHtml(ns, roots, m, Menu, k, currentRoute)
      ensures r.children[k].Element? && r.children[k].tag == "li"
    {
      SiblingsHtmlPrefix(ns, roots, m, Menu, |roots|, currentRoute, k);
      assert ns[roots[k]].parent == Menu;
    }
  }

  /**
   * The flags `toString()` leaves behind: every node is active exactly when
   * its own route or a direct child's route matches, whatever it was
   * before; it is marked first (last) when it was already, or when it is
   * first (last) among its siblings now; the menu object becomes active
   * when a top-level route matches.
   */
  lemma MenuFlags(ns: seq<Node>, roots: seq<nat>, m: Marks, currentRoute: string, j: nat)
    requires Fits(ns, roots, m) && j < |ns|
    ensures var r := SiblingsMarks(ns, roots, m, Menu, |roots|, currentRoute);
      && r.flags[j].isActive == ActiveAfterRender(ns, j, currentRoute)
      && r.flags[j].isFirst == (m.flags[j].isFirst || IsFirstChild(ns, roots, j))
      && r.flags[j].isLast == (m.flags[j].isLast || IsLastChild(ns, roots, j))
      && r.menuActive == (m.menuActive || exists k :: 0 <= k < |roots| && Matched(ns, roots[k], currentRoute))
  {
    SiblingsFlags(ns, roots, m, Menu, |roots|, currentRoute, j);
    TopLevelAncestor(ns, j);
    var top := Top(ns, j, Menu).value;
    assert ns[top].parent == Menu;
    assert roots[..|roots|] == roots;
  }

  /**
   * Position flags are never cleared: render the menu, add a top-level
   * node, render again, and the node that was last still carries
   * `isLast` although it no longer is last.
   */
  lemma StaleLastFlag(ns: seq<Node>, roots: seq<nat>, m: Marks, currentRoute: string, text: string, route: Option<string>)
    requires Fits(ns, roots, m) && |roots| > 0
    ensures var first := SiblingsMarks(ns, roots, m, Menu, |roots|, currentRoute);
      var ns2 := WithTopLevel(ns, text, route);
      var roots2 := roots + [|ns|];
      var m2 := first.(flags := first.flags + [Cleared]);
      var again := SiblingsMarks(ns2, roots2, m2, Menu, |roots2|, currentRoute);
      var last := roots[|roots| - 1];
      && Fits(ns2, roots2, m2)
      && !IsLastChild(ns2, roots2, last)
      && again.flags[last].isLast
  {
    var first := SiblingsMarks(ns, roots, m, Menu, |roots|, currentRoute);
    var m2 := first.(flags := first.flags + [Cleared]);
    var last := roots[|roots| - 1];
    LastNoLongerLast(ns, roots, text, route);
    MenuFlags(ns, roots, m, currentRoute, last);
    assert m2.flags[last] == first.flags[last];
    MenuFlags(WithTopLevel(ns, text, route), roots + [|ns|], m2, currentRoute, last);
  }

  /** The last top-level node stops being last once another one is added. */
  lemma LastNoLongerLast(ns: seq<Node>, roots: seq<nat>, text: string, route: Option<string>)
    requires WellFormed(ns, roots) && |roots| > 0
    ensures var ns2 := WithTopLevel(ns, text, route);
      var roots2 := roots + [|ns|];
      var last := roots[|roots| - 1];
      && WellFormed(ns2, roots2)
      && IsLastChild(ns, roots, last)
      && !IsLastChild(ns2, roots2, last)
  {
    var ns2 := WithTopLevel(ns, text, route);
    var last := roots[|roots| - 1];
    WithTopLevelWellFormed(ns, roots, text, route);
    assert ns[last].parent == Menu;
    assert ns2[last] == ns[last];
  }

  /**
   * Activation stops one level up: when the page shown is that of a
   * grandchild `item` (reached through the child `list`) and neither `top`
   * nor any of its direct children match, `toString()` leaves `item` and
   * `list` active but not `top`.
   */
  lemma DeepMatchMissesTopItem(ns: seq<Node>, roots: seq<nat>, m: Marks, currentRoute: string, top: nat, a: nat, b: nat)
    requires Fits(ns, roots, m) && top < |ns| && a < |ns[top].childNodes|
    requires b < |ns[ns[top].childNodes[a]].childNodes|
    requires Matched(ns, ns[ns[top].childNodes[a]].childNodes[b], currentRoute)
    requires !Matched(ns, top, currentRoute)
    requires !SomeMatched(ns, ns[top].childNodes, |ns[top].childNodes|, currentRoute)
    ensures var r := SiblingsMarks(ns, roots, m, Menu, |roots|, currentRoute);
      var list := ns[top].childNodes[a];
      && r.flags[ns[list].childNodes[b]].isActive
      && r.flags[list].isActive
      && !r.flags[top].isActive
  {
    var list := ns[top].childNodes[a];
    var item := ns[list].childNodes[b];
    MenuFlags(ns, roots, m, currentRoute, item);
    MenuFlags(ns, roots, m, currentRoute, list);
    MenuFlags(ns, roots, m, currentRoute, top);
  }
}
