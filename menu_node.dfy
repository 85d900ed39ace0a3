/**
 * One node of the menu tree (an `ActiveMenuNode`) and everything derived
 * from a node's fields alone: its element kind, whether it is a parent,
 * the class list of its list item and of its list wrapper, and the inner
 * link or label element. The markup is an abstract tree; turning it into
 * text is the job of the markup generator, which this model does not
 * include.
 */
module MenuNode {
  import opened Wrappers
  import opened Text

  type Attributes = map<string, string>

  /** Rendered markup: an element with attributes and children, or text. */
  datatype Markup =
    | Element(tag: string, attrs: Attributes, children: seq<Markup>)
    | Text(text: string)

  /** The node's `elementType`: `'ul'` or `'li'`. */
  datatype ElementType = Ul | Li

  /** The node's `parent`: the menu itself, or another node (by index). */
  datatype Parent = Menu | NodeAt(index: nat)

  /**
   * The fields of a node that rendering reads but never writes. `route` is
   * None when the author gave no route.
   */
  datatype Node = Node(
    parent: Parent,
    text: string,
    route: Option<string>,
    elementType: ElementType,
    depth: nat,
    childNodes: seq<nat>,
    htmlAttributes: Attributes)

  /** The three render flags a node carries between renders. */
  datatype Flags = Flags(isActive: bool, isFirst: bool, isLast: bool)

  const Cleared := Flags(false, false, false)

  function TagName(t: ElementType): string
  {
    match t
    case Ul => "ul"
    case Li => "li"
  }

  /** `isList()`. */
  predicate IsList(n: Node)
  {
    n.elementType == Ul
  }

  /** `isParent()`. */
  predicate IsParent(n: Node)
  {
    |n.childNodes| > 0
  }

  /**
   * The element kind `addMenuNode` gives a new child: `'li'` under a list,
   * otherwise the constructor's default `'ul'`.
   */
  function ChildElementType(parentType: ElementType): (t: ElementType)
    ensures t != parentType
  {
    if parentType == Ul then Li else Ul
  }

  /** A fresh node as the constructor and `addMenuNode` leave it. */
  function NewNode(parent: Parent, text: string, route: Option<string>, elementType: ElementType, depth: nat): Node
  {
    Node(parent, text, route, elementType, depth, [], map[])
  }

  /** `if (this.route)`: a route that is present and not the empty string. */
  predicate HasLink(n: Node)
  {
    n.route.Some? && n.route.value != ""
  }

  /** `this.route == currentRoute`: an absent route never matches. */
  predicate RouteMatches(n: Node, currentRoute: string)
  {
    n.route == Some(currentRoute)
  }

  // ---------------------------------------------------------------------
  // Class lists
  // ---------------------------------------------------------------------

  function LevelClass(depth: nat): string
  {
    "level-" + NatToString(depth)
  }

  /** The author's `class` attribute split on single spaces, if present. */
  function AuthorClasses(n: Node): seq<string>
  {
    if "class" in n.htmlAttributes then Split(n.htmlAttributes["class"]) else []
  }

  /** `only` when first and last, else `first`, else `last`, else nothing. */
  function PositionClasses(f: Flags): seq<string>
  {
    if f.isFirst && f.isLast then ["only"]
    else if f.isFirst then ["first"]
    else if f.isLast then ["last"]
    else []
  }

  /** The classes a node adds after the author's, in the order it pushes them. */
  function DerivedClasses(n: Node, f: Flags): seq<string>
  {
    (if f.isActive then ["active"] else [])
    + [LevelClass(n.depth)]
    + PositionClasses(f)
    + (if IsParent(n) then ["parent"] else [])
  }

  /** The classes of a list wrapper: `active` when active, then the level. */
  function ListClasses(n: Node, f: Flags): seq<string>
  {
    (if f.isActive then ["active"] else []) + [LevelClass(n.depth)]
  }

  lemma LevelClassHasNoSpace(depth: nat)
    ensures ' ' !in LevelClass(depth)
  {
    DigitsHaveNoSpace(NatToString(depth));
  }

  /**
   * `getRenderHtmlAttributes()`: every author attribute is copied, and the
   * class attribute becomes the author's classes followed by the derived
   * ones, space-joined. The node's own map is a value, so it is left as it
   * was.
   */
  function GetRenderHtmlAttributes(n: Node, f: Flags): Attributes
  {
    n.htmlAttributes["class" := Join(AuthorClasses(n) + DerivedClasses(n, f))]
  }

  /**
   * `getListHtmlAttributes()`: a map with the class attribute only, holding
   * `active` (when active) and the level; author attributes are ignored.
   */
  function GetListHtmlAttributes(n: Node, f: Flags): Attributes
  {
    map["class" := Join(ListClasses(n, f))]
  }

  /**
   * The link or label of a node: `a` when the route is truthy, else `span`;
   * `href` is the route when there is one; class `active` when the route
   * matches.
   */
  function InnerElement(n: Node, currentRoute: string): Markup
  {
    var href: Attributes := if n.route.Some? then map["href" := n.route.value] else map[];
    var attrs := if RouteMatches(n, currentRoute) then href["class" := "active"] else href;
    Element(if HasLink(n) then "a" else "span", attrs, [Text(n.text)])
  }

  /**
   * What `getInnerHtml()` returns: the link or label, wrapped for a list
   * node in an `li` whose attributes are taken with the flags as they are
   * at that moment (before any child has rendered).
   */
  function InnerHtml(n: Node, f: Flags, currentRoute: string): Markup
  {
    if IsList(n) then Element("li", GetRenderHtmlAttributes(n, f), [InnerElement(n, currentRoute)])
    else InnerElement(n, currentRoute)
  }

  // ---------------------------------------------------------------------
  // Properties of the class lists
  // ---------------------------------------------------------------------

  /**
   * The item's attributes: the author's keys plus `class`, every other
   * author value as it was, and a class attribute that splits back into
   * the author's classes followed by the derived ones.
   */
  lemma RenderHtmlAttributesMeaning(n: Node, f: Flags)
    ensures var r := GetRenderHtmlAttributes(n, f);
      && r.Keys == n.htmlAttributes.Keys + {"class"}
      && (forall key :: key in n.htmlAttributes && key != "class" ==> r[key] == n.htmlAttributes[key])
      && Split(r["class"]) == AuthorClasses(n) + DerivedClasses(n, f)
  {
    var classes := AuthorClasses(n) + DerivedClasses(n, f);
    LevelClassHasNoSpace(n.depth);
    assert NoSpaces(classes);
    SplitJoin(classes);
  }

  /** The wrapper's attributes: the class key alone, splitting back into the list classes. */
  lemma ListHtmlAttributesMeaning(n: Node, f: Flags)
    ensures var r := GetListHtmlAttributes(n, f);
      && r.Keys == {"class"}
      && Split(r["class"]) == ListClasses(n, f)
  {
    var classes := ListClasses(n, f);
    LevelClassHasNoSpace(n.depth);
    assert NoSpaces(classes);
    SplitJoin(classes);
  }

  /**
   * The inner element is an `a` exactly when the route is truthy (else a
   * `span`), holds the text, links to the route when there is one, and is
   * classed `active` exactly when the route matches.
   */
  lemma InnerElementMeaning(n: Node, currentRoute: string)
    ensures var r := InnerElement(n, currentRoute);
      && r.Element? && r.children == [Text(n.text)]
      && (r.tag == "a" <==> HasLink(n))
      && (r.tag == "span" <==> !HasLink(n))
      && ("class" in r.attrs <==> RouteMatches(n, currentRoute))
      && ("class" in r.attrs ==> r.attrs["class"] == "active")
      && ("href" in r.attrs <==> n.route.Some?)
      && ("href" in r.attrs ==> r.attrs["href"] == n.route.value)
  {
  }

  /**
   * What each derived class means: `active` iff the node is active,
   * `parent` iff it has children, exactly one of `only`/`first`/`last`
   * according to its position flags, and the level class at its place.
   */
  lemma DerivedClassesMeaning(n: Node, f: Flags)
    ensures var d := DerivedClasses(n, f);
      && ("active" in d <==> f.isActive)
      && ("parent" in d <==> IsParent(n))
      && ("only" in d <==> f.isFirst && f.isLast)
      && ("first" in d <==> f.isFirst && !f.isLast)
      && ("last" in d <==> f.isLast && !f.isFirst)
      && d[if f.isActive then 1 else 0] == LevelClass(n.depth)
      && (forall k :: 0 <= k < |d| && d[k] != LevelClass(n.depth) ==>
            d[k] in ["active", "only", "first", "last", "parent"])
  {
    var level := LevelClass(n.depth);
    assert |level| >= 7;
    assert level != "active" && level != "parent" && level != "only" && level != "first" && level != "last";
    assert "only"[0] != "last"[0];
  }

  /** A list wrapper never carries a position or parent class. */
  lemma ListClassesMeaning(n: Node, f: Flags)
    ensures var d := ListClasses(n, f);
      && ("active" in d <==> f.isActive)
      && d[|d| - 1] == LevelClass(n.depth)
      && "only" !in d && "first" !in d && "last" !in d && "parent" !in d
  {
    var level := LevelClass(n.depth);
    assert |level| >= 7;
  }

  /**
   * The class attribute keeps the author's string verbatim: it is that
   * string, a space, and the derived classes joined by spaces.
   */
  lemma {:induction false} RenderClassKeepsAuthorClass(n: Node, f: Flags)
    ensures var c := GetRenderHtmlAttributes(n, f)["class"];
      && ("class" in n.htmlAttributes ==> c == n.htmlAttributes["class"] + " " + Join(DerivedClasses(n, f)))
      && ("class" !in n.htmlAttributes ==> c == Join(DerivedClasses(n, f)))
  {
    var derived := DerivedClasses(n, f);
    assert |derived| >= 1;
    if "class" in n.htmlAttributes {
      var s := n.htmlAttributes["class"];
      JoinAppend(Split(s), derived);
      JoinSplit(s);
    } else {
      assert AuthorClasses(n) + derived == derived;
    }
  }
}
