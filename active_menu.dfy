/**
 * The menu object (`ActiveMenu`) with the nodes it owns. Each node is
 * named by its index in `nodes`, in creation order; its structural fields
 * are `nodes[i]` and its render flags are `flags[i]`. The node methods
 * (`addMenuNode`, `setAttributes`, `activateBranch`, `getInnerHtml`,
 * `toHtml`) are methods of the menu that take the node's index.
 */
module ActiveMenu {
  import opened Wrappers
  import opened MenuNode
  import opened MenuTree
  import opened Render

  datatype MenuError =
    /** `currentRequest` is still null: reading `.route` of it throws. */
    | NoRequestBound

  class ActiveMenu {
    /** The name the menu is published under by the host framework. */
    const menuName: string
    const depth: nat
    /** The top-level nodes, in the order they were added. */
    var nodeList: seq<nat>
    /** The author's attributes for the outer `ul`. */
    var htmlAttributes: Attributes
    /** `currentRequest.route.path`, or None while no request is bound. */
    var currentRoute: Option<string>
    /** Set by `activateBranch` of a top-level node; never read. */
    var isActive: bool
    /** Every node, by index. */
    var nodes: seq<Node>
    /** The render flags of every node, by index. */
    var flags: seq<Flags>

    ghost predicate Valid()
      reads this
    {
      WellFormed(nodes, nodeList) && |flags| == |nodes| && depth == MenuDepth
    }

    /** What a render pass needs: a tree it can walk and a flag per node. */
    ghost predicate Ready()
      reads this
    {
      Shaped(nodes, nodeList) && |flags| == |nodes|
    }

    /** The render flags of the nodes and of the menu object. */
    ghost function State(): Marks
      reads this
    {
      Marks(flags, isActive)
    }

    /** `new ActiveMenu(menuName)`: no nodes, no attributes, no request. */
    constructor (menuName: string)
      ensures Valid()
      ensures this.menuName == menuName && depth == 0
      ensures nodeList == [] && nodes == [] && flags == []
      ensures htmlAttributes == map[] && currentRoute == None && !isActive
    {
      this.menuName := menuName;
      depth := MenuDepth;
      nodeList := [];
      htmlAttributes := map[];
      currentRoute := None;
      isActive := false;
      nodes := [];
      flags := [];
    }

    /** `getCurrentRequestRoute()`: fails while no request is bound. */
    function GetCurrentRequestRoute(): (r: Result<string, MenuError>)
      reads this
      ensures r.Success? <==> currentRoute.Some?
      ensures r.Success? ==> r.value == currentRoute.value
    {
      match currentRoute
      case Some(path) => Success(path)
      case None => Failure(NoRequestBound)
    }

    /** The menu's `setAttributes(attributes)`: replaces the map wholesale. */
    method SetAttributes(attributes: Attributes)
      modifies this`htmlAttributes
      ensures Valid() == old(Valid())
      ensures htmlAttributes == attributes
    {
      htmlAttributes := attributes;
    }

    /**
     * The menu's `addMenuNode(text, route)`: a new `li` node at level one,
     * appended to `nodeList`.
     */
    method AddMenuNode(text: string, route: Option<string>) returns (id: nat)
      requires Valid()
      modifies this`nodes, this`flags, this`nodeList
      ensures Valid()
      ensures id == old(|nodes|)
      ensures nodes == WithTopLevel(old(nodes), text, route)
      ensures nodes[id].parent == Menu && nodes[id].elementType == Li && nodes[id].depth == depth + 1
      ensures nodeList == old(nodeList) + [id]
      ensures flags == old(flags) + [Cleared]
    {
      WithTopLevelWellFormed(nodes, nodeList, text, route);
      id := |nodes|;
      nodes := WithTopLevel(nodes, text, route);
      flags := flags + [Cleared];
      nodeList := nodeList + [id];
    }

    /**
     * A node's `addMenuNode(text, route)`: a new node one level below
     * `parent`, appended to its `childNodes`; `li` under a `ul` node, `ul`
     * under an `li` node.
     */
    method AddChild(parent: nat, text: string, route: Option<string>) returns (id: nat)
      requires Valid() && parent < |nodes|
      modifies this`nodes, this`flags
      ensures Valid()
      ensures id == old(|nodes|)
      ensures nodes == WithChild(old(nodes), parent, text, route)
      ensures nodes[parent].childNodes == old(nodes[parent].childNodes) + [id]
      ensures nodes[id].parent == NodeAt(parent) && nodes[id].depth == nodes[parent].depth + 1
      ensures nodes[id].elementType == (if IsList(old(nodes[parent])) then Li else Ul)
      ensures IsParent(nodes[parent]) && (IsList(nodes[id]) <==> !IsList(nodes[parent]))
      ensures flags == old(flags) + [Cleared]
    {
      WithChildWellFormed(nodes, nodeList, parent, text, route);
      id := |nodes|;
      nodes := WithChild(nodes, parent, text, route);
      flags := flags + [Cleared];
    }

    /** A node's `setAttributes(attributes)`: replaces its map wholesale. */
    method SetNodeAttributes(id: nat, attributes: Attributes)
      requires Valid() && id < |nodes|
      modifies this`nodes
      ensures Valid()
      ensures nodes == old(nodes)[id := old(nodes[id]).(htmlAttributes := attributes)]
    {
      var ns := nodes[id := nodes[id].(htmlAttributes := attributes)];
      assert forall i :: 0 <= i < |ns| ==> ns[i] == nodes[i].(htmlAttributes := ns[i].htmlAttributes);
      nodes := ns;
    }

    /**
     * `activateBranch()`: the node and its immediate parent become active.
     * The recursive branch of the source is guarded by the parent having
     * `activateBranch` as an own property, which neither a node (it is on
     * the prototype) nor the menu has, so only the other branch runs.
     */
    method ActivateBranch(id: nat)
      requires Ready() && id < |nodes|
      modifies this`flags, this`isActive
      ensures Ready() && (old(Valid()) ==> Valid())
      ensures State() == Activated(nodes, old(State()), id)
    {
      flags := flags[id := flags[id].(isActive := true)];
      match nodes[id].parent
      case NodeAt(p) =>
        flags := flags[p := flags[p].(isActive := true)];
      case Menu =>
        isActive := true;
    }

    /**
     * `getInnerHtml()`: the link or label, activating the branch when the
     * route matches; a list node wraps it in an `li` whose attributes are
     * taken at this point.
     */
    method GetInnerHtml(id: nat) returns (html: Markup)
      requires Ready() && id < |nodes| && currentRoute.Some?
      modifies this`flags, this`isActive
      ensures Ready() && (old(Valid()) ==> Valid())
      ensures State() == Lit(nodes, old(State()), id, currentRoute.value)
      ensures html == InnerHtml(nodes[id], flags[id], currentRoute.value)
    {
      var route := currentRoute.value;
      var inner := InnerElement(nodes[id], route);
      if RouteMatches(nodes[id], route) {
        ActivateBranch(id);
      }
      if IsList(nodes[id]) {
        html := Element("li", GetRenderHtmlAttributes(nodes[id], flags[id]), [inner]);
      } else {
        html := inner;
      }
    }

    /**
     * `toHtml()`: clear `isActive`, build the inner element, render the
     * children in order (marking the first and the last), then take this
     * node's own attributes.
     */
    method ToHtml(id: nat) returns (html: Markup)
      requires Ready() && id < |nodes| && currentRoute.Some?
      modifies this`flags, this`isActive
      ensures Ready() && (old(Valid()) ==> Valid())
      decreases |nodes| - id, 2
      ensures State() == NodeMarks(nodes, nodeList, old(State()), id, currentRoute.value)
      ensures html == NodeHtml(nodes, nodeList, old(State()), id, currentRoute.value)
    {
      flags := flags[id := flags[id].(isActive := false)];
      var inner := GetInnerHtml(id);
      var childHtml := RenderChildren(NodeAt(id));
      var node := nodes[id];
      var attributes := if IsList(node) then GetListHtmlAttributes(node, flags[id]) else GetRenderHtmlAttributes(node, flags[id]);
      html := Element(TagName(node.elementType), attributes, [inner] + childHtml);
    }

    /**
     * The first `key` children of `par` have been rendered from the flags
     * `start`, giving `html`, as `SiblingsMarks` and `SiblingsHtml` say.
     */
    ghost predicate ChildrenRendered(start: Marks, par: Parent, key: nat, html: seq<Markup>)
      reads this
    {
      && Ready() && ValidParent(nodes, par) && key <= |ChildrenOf(nodes, nodeList, par)|
      && currentRoute.Some? && |start.flags| == |nodes|
      && State() == SiblingsMarks(nodes, nodeList, start, par, key, currentRoute.value)
      && html == SiblingsHtml(nodes, nodeList, start, par, key, currentRoute.value)
    }

    /**
     * The child loop of `toHtml()` (under a node) or of `toString()` (under
     * the menu): each child in order is marked first and/or last among its
     * siblings, then rendered.
     */
    method RenderChildren(par: Parent) returns (html: seq<Markup>)
      requires Ready() && ValidParent(nodes, par) && currentRoute.Some?
      modifies this`flags, this`isActive
      ensures Ready() && (old(Valid()) ==> Valid())
      decreases |nodes| - Lo(par), 1
      ensures var n := |ChildrenOf(nodes, nodeList, par)|;
        && State() == SiblingsMarks(nodes, nodeList, old(State()), par, n, currentRoute.value)
        && html == SiblingsHtml(nodes, nodeList, old(State()), par, n, currentRoute.value)
    {
      ghost var start := State();
      var children := ChildrenOf(nodes, nodeList, par);
      html := [];
      var key := 0;
      while key < |children|
        invariant key <= |children| && ChildrenRendered(start, par, key, html)
      {
        var childHtml := RenderChild(par, key, start, html);
        html := html + [childHtml];
        key := key + 1;
      }
    }

    /** One turn of the child loop: mark the `key`-th child of `par`, then render it. */
    method RenderChild(par: Parent, key: nat, ghost start: Marks, ghost before: seq<Markup>) returns (html: Markup)
      requires ChildrenRendered(start, par, key, before) && key < |ChildrenOf(nodes, nodeList, par)|
      modifies this`flags, this`isActive
      ensures Ready() && (old(Valid()) ==> Valid())
      decreases |nodes| - Lo(par), 0
      ensures ChildrenRendered(start, par, key + 1, before + [html])
    {
      var children := ChildrenOf(nodes, nodeList, par);
      var child := children[key];
      assert Lo(par) < child < |nodes|;
      flags := flags[child := Placed(flags[child], key, |children|)];
      html := ToHtml(child);
    }

    /**
     * `toString()`: mark the first and the last top-level node, render the
     * top-level nodes in order and wrap them in a `ul` that carries the
     * menu's attributes as they are. With no request bound, the first
     * node's render fails right after its marking and the clearing of its
     * `isActive`; an empty menu never asks for the route.
     */
    method ToString() returns (r: Result<Markup, MenuError>)
      requires Ready()
      modifies this`flags, this`isActive
      ensures Ready() && (old(Valid()) ==> Valid())
      ensures currentRoute.Some? ==>
        && State() == SiblingsMarks(nodes, nodeList, old(State()), Menu, |nodeList|, currentRoute.value)
        && r == Success(MenuHtml(nodes, nodeList, htmlAttributes, old(State()), currentRoute.value))
      ensures currentRoute.None? && nodeList == [] ==>
        State() == old(State()) && r == Success(Element("ul", htmlAttributes, []))
      ensures currentRoute.None? && nodeList != [] ==>
        var first := nodeList[0];
        && r == Failure(NoRequestBound)
        && State() == old(State()).(flags := old(flags)[first := Placed(old(flags[first]), 0, |nodeList|).(isActive := false)])
    {
      if currentRoute.None? && nodeList != [] {
        var first := nodeList[0];
        flags := flags[first := Placed(flags[first], 0, |nodeList|)];
        flags := flags[first := flags[first].(isActive := false)];
        return Failure(NoRequestBound);
      }
      var childHtml := [];
      if nodeList != [] {
        childHtml := RenderChildren(Menu);
      }
      r := Success(Element("ul", htmlAttributes, childHtml));
    }
  }
}
