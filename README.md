# active-menu in Dafny

A model of the two core files of `active-menu`, a small Node.js library that
builds a navigation menu as a tree and renders it as nested `ul`/`li` markup,
marking the entry for the current request's route as active.

- `ActiveMenu` (index.js) holds:
  - the top-level nodes (`nodeList`),
  - the attributes of the outer `ul`,
  - the bound request, whose `route.path` is the current route.

  `toString()` marks the first and the last top-level node, renders each one
  and wraps the result in a `ul`.
- `ActiveMenuNode` (active-menu-node.js) is one node. It has:
  - text, an optional route and an element kind (`ul` or `li`),
  - a depth, its children and the author's attributes,
  - three render flags: `isActive`, `isFirst` and `isLast`.

  `toHtml()` renders a node in this order:
  1. It clears the node's `isActive`.
  2. It builds the link (`a`) or label (`span`) and activates the branch when the route matches. A list node wraps this in an `li` whose attributes are taken at this point.
  3. It renders the children in order, marking the first and the last.
  4. Only then does it take the node's own element attributes.

## How the model is laid out

- `wrappers.dfy`: `Option` and `Result`.
- `text.dfy`: JavaScript's `split(' ')` and `join(' ')` on strings, and the decimal form of the depth in `'level-' + depth`.
- `menu_node.dfy`: a node as a value (`Node`), its render flags (`Flags`), and everything computed from one node. That covers `isList`, `isParent`, the element kind of a new child, both attribute maps and the inner element. Markup is an abstract tree (`Markup`).
- `menu_tree.dfy`: the whole tree as a sequence of nodes indexed by creation order. It holds the well-formedness invariant and the two ways of growing the tree (`WithChild`, `WithTopLevel`). It also holds the subtree relation used in the render proofs.
- `render.dfy`: the render pass as a specification.
  - `NodeMarks` and `SiblingsMarks` give the flags a pass leaves behind.
  - `NodeHtml`, `SiblingsHtml`, `ChildHtml` and `MenuHtml` give the markup it returns.
  - `RenderNodeFlags` and `SiblingsFlags` prove, by mutual induction, exactly which flags change and to what.
- `render_facts.dfy`: what a whole render promises. That is the markup shape, the flags after `toString()`, and two consequences of the code as written.
- `active_menu.dfy`: the class `ActiveMenu`, which holds the state. Nodes are referred to by index: `nodes[i]` holds the structural fields of node `i` and `flags[i]` its render flags. Each node method becomes a method of the menu that takes the node's index. `ToHtml`, `RenderChildren`, `RenderChild` and `ToString` update the flags in place and are proved equal to the specification functions in `render.dfy`.

## Where the code and its documentation disagree

The model follows the code in each of these cases.

- **Activation stops one level up.** The doc comment of `activateBranch` (active-menu-node.js:122-136) says it activates every parent up the branch. The recursive call is guarded by `this.parent.hasOwnProperty('activateBranch')`. That never holds: a node gets the method from its prototype, and the menu does not have it at all. So only the node and its immediate parent become active. `RenderFacts.DeepMatchMissesTopItem` states the consequence: when a grandchild is shown, the top item stays inactive.
- **Position flags are never cleared.** `toHtml()` clears `isActive` before each pass. `isFirst` and `isLast` are only ever set, so they outlive the position that earned them (`RenderFacts.StaleLastFlag`). The menu object's own `isActive` is also never cleared.
- **The outer `ul` gets the menu's attributes unchanged.** It carries no `active` class and no level class (`RenderFacts.MenuHtmlShape`).

## Model

| member | source | states |
|---|---|---|
| Text.JoinSplit | active-menu-node.js:155-157 | Splitting a class string on spaces and joining it back gives the string back. |
| Text.SplitJoin | active-menu-node.js:181-182 | Joining class names that contain no space and splitting the result gives the names back. |
| Text.ParseNatToString | active-menu-node.js:164-165 | The decimal digits used in `'level-' + depth` read back as the depth. |
| MenuNode.ChildElementType | active-menu-node.js:115-117 | A new child's element kind always differs from its parent's: `li` under `ul`, and the constructor's default `ul` under `li`. |
| MenuNode.LevelClassHasNoSpace | active-menu-node.js:164-165 | The level class is a single class name (it contains no space). |
| MenuNode.RenderHtmlAttributesMeaning | active-menu-node.js:143-186 | The item attributes have the author's keys plus `class`. Every other author value is kept. The class attribute splits into the author's classes followed by the derived ones. |
| MenuNode.DerivedClassesMeaning | active-menu-node.js:159-179 | `active` is present iff the node is active, and `parent` iff it has children. At most one of `only`/`first`/`last` appears: `only` when both position flags are set, `first` or `last` when just that one is, none when neither is. The level class comes first after `active`, and nothing else appears. |
| MenuNode.RenderClassKeepsAuthorClass | active-menu-node.js:154-182 | The author's class string is kept verbatim, followed by a space and the derived classes. Without an author class, only the derived classes appear. |
| MenuNode.ListHtmlAttributesMeaning | active-menu-node.js:192-208 | The list wrapper's attributes hold the `class` key only, and it splits into the list classes. Author attributes are ignored. |
| MenuNode.ListClassesMeaning | active-menu-node.js:198-205 | The list classes are `active` iff the node is active, ending with the level class. They never include a position or `parent` class. |
| MenuNode.InnerElementMeaning | active-menu-node.js:214-240 | The inner element is `a` iff the route is truthy and `span` otherwise, and it holds the text. It has `href` iff there is a route. It has class `active` iff the route equals the current route. |
| MenuTree.WithChildWellFormed | active-menu-node.js:111-120 | A node's `addMenuNode` keeps the tree well formed. |
| MenuTree.WithChild | active-menu-node.js:111-120 | The new node is appended last to the parent's children, one level deeper, with the kind its parent gives. Every other node is unchanged. |
| MenuTree.WithTopLevelWellFormed | index.js:100-111 | The menu's `addMenuNode` keeps the tree well formed. |
| MenuTree.WithTopLevel | index.js:100-111 | The new top-level node is an `li` at level one, appended after the existing nodes, which are unchanged. |
| MenuTree.TopLevelAncestor | active-menu-node.js:8-14 | Following `parent` from any node reaches a top-level node. |
| MenuTree.TopOfSubtree | active-menu-node.js:272-282 | Every node in the subtree of a child of `par` sits under that child. |
| Render.Activated | active-menu-node.js:128-136 | `activateBranch` activates the node and its immediate parent, or the menu object for a top-level node. Nothing else changes. |
| Render.RenderNodeFlags | active-menu-node.js:258-290 | After `toHtml()` on a node, every node in its subtree is active iff its own or a direct child's route matches, whatever it was before. Nodes below it gain first/last marks by position and lose none. Its own marks are unchanged. Its parent only gains `isActive`, and only when its route matches. Every other node is untouched. |
| Render.SiblingsFlags | active-menu-node.js:272-282 | The same, over the first `k` children of a parent rendered in order. |
| RenderFacts.NodeHtmlShape | active-menu-node.js:243-300 | `toHtml()` returns the node's own element holding the inner markup and one entry per child. A list node's `li` takes its attributes with only the node's own match counted. Its `ul` takes the list attributes after the children. A non-list node takes the item attributes after the children. |
| RenderFacts.SiblingsHtmlPrefix | active-menu-node.js:272-282 | Rendering later siblings leaves the markup of earlier ones unchanged. |
| RenderFacts.MenuHtmlShape | index.js:119-145 | `toString()` returns a `ul` with exactly the menu's attributes, holding one `li` per top-level node in order. |
| RenderFacts.MenuFlags | index.js:128-138 | After `toString()`, every node is active iff its own or a direct child's route matches. A node is first (last) iff it already was or is now first (last) among its siblings. The menu object becomes active when a top-level route matches. |
| RenderFacts.StaleLastFlag | index.js:130-135 | Render the menu, add a top-level node and render again: the former last node still carries `isLast`, though it is no longer last. |
| RenderFacts.LastNoLongerLast | index.js:100-111 | Adding a top-level node ends the previous last node's place as last. |
| RenderFacts.DeepMatchMissesTopItem | active-menu-node.js:128-136 | Suppose a grandchild's route matches but neither the top node's own route nor any of its children's does. Then the grandchild and its parent are active after `toString()`, and the top node is not. |
| ActiveMenu.ActiveMenu.constructor | index.js:20-56 | A new menu has no nodes, no attributes, no bound request and depth 0. |
| ActiveMenu.ActiveMenu.GetCurrentRequestRoute | index.js:78-80 | Succeeds, giving the route, iff a request is bound. |
| ActiveMenu.ActiveMenu.SetAttributes | index.js:88-91 | Replaces the menu's attribute map wholesale. It leaves the tree and flags, and so the menu's validity, as they were. |
| ActiveMenu.ActiveMenu.AddMenuNode | index.js:100-111 | Appends a new `li` node at level one to `nodeList` with cleared flags, keeping the tree well formed. |
| ActiveMenu.ActiveMenu.AddChild | active-menu-node.js:111-120 | Appends a new node to the parent's children with cleared flags, one level deeper. The parent becomes a parent, and the child's kind is `li` iff the parent is a list. The tree stays well formed. |
| ActiveMenu.ActiveMenu.SetNodeAttributes | active-menu-node.js:83-86 | Replaces the node's attribute map wholesale and changes nothing else. |
| ActiveMenu.ActiveMenu.ActivateBranch | active-menu-node.js:128-136 | The new flags are exactly `Activated` of the old ones. The tree stays walkable with one flag entry per node, and a well-formed menu stays well formed. |
| ActiveMenu.ActiveMenu.GetInnerHtml | active-menu-node.js:214-252 | Activates the branch iff the route matches. Returns the inner element, wrapped for a list node in an `li` with the flags at that moment. The tree stays walkable with one flag entry per node, and a well-formed menu stays well formed. |
| ActiveMenu.ActiveMenu.ToHtml | active-menu-node.js:258-300 | The new flags are `NodeMarks` of the old ones and the markup is `NodeHtml`. Their properties are `RenderNodeFlags` and `NodeHtmlShape`. The tree stays walkable with one flag entry per node, and a well-formed menu stays well formed. |
| ActiveMenu.ActiveMenu.RenderChildren | active-menu-node.js:268-282 | The child loop leaves `SiblingsMarks` of the old flags and returns `SiblingsHtml`. The tree stays walkable with one flag entry per node, and a well-formed menu stays well formed. |
| ActiveMenu.ActiveMenu.RenderChild | active-menu-node.js:273-281 | One turn of the loop marks the child first/last by position and then renders it. The tree stays walkable with one flag entry per node, and a well-formed menu stays well formed. |
| ActiveMenu.ActiveMenu.ToString | index.js:119-145 | With a bound request, the flags become `SiblingsMarks` over the top-level nodes and the result is `MenuHtml`. With none, an empty menu renders as a bare `ul`. With none and a non-empty menu, rendering fails after marking the first node and clearing its `isActive`. The tree stays walkable with one flag entry per node, and a well-formed menu stays well formed. |

## Left out

- The `menu` middleware (index.js:65-72) binds the request and publishes the menu to the host framework. The model instead has the current route as a field, `currentRoute`, which is `None` while no request is bound.
- The `menuInstance` module global (index.js:12, 23) is not modelled. Every node refers to the one menu that owns it. A second menu constructed later, which would take over the global, is not modelled either.
- The markup generator `html-sourcery` is not part of this model: its tag functions, `compile()`, escaping and serialisation. Markup is the abstract tree `Markup`.
- `InnerElementMeaning`: when there is no route, the source sets `href` to the absent route value (`undefined`, or `null` if the author passed it), and the generator decides what that renders as. The model leaves `href` out in that case.
- `RouteMatches`: JavaScript's loose `==` is modelled as string equality with an absent route never matching. Route values that are not strings are not modelled.
- `ToHtml`: requires a bound request. Reading the route of a missing request throws inside `getInnerHtml`; that failure is modelled only through `ToString`, which is where a render starts.
- `GetInnerHtml`: requires a bound request. The throw when it reads the route of a missing request (active-menu-node.js:229) is modelled only through `ToString`.
- The fluent `return this` of the setters and the returned node of `addMenuNode` are not modelled; `AddMenuNode` and `AddChild` return the new node's index instead.
- `hasOwnProperty` and prototype lookup are modelled only by their outcome in `activateBranch`: the recursive branch never runs.
- The attribute "arrays" (JavaScript arrays used as string-keyed maps) are modelled as `map<string, string>`. Attribute values that are not strings are not modelled.
- The node constructor (active-menu-node.js:8-75) is folded into `AddMenuNode` and `AddChild`, which are its only callers.
