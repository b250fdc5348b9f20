/** The tutorial page template: lifting registered components out of the
    paragraphs that wrap them in the rendered Markdown tree, and the list of
    tutorial pages handed to the sidebar and the footer. */
module Tutorial {

  import opened Options

  /** A node of the HTML syntax tree: its `type`, its `tagName` (elements only),
      its `children`, and every other field (`properties`, `value`, `position`, ...)
      as `extra`. */
  datatype Node<E> = Node(kind: string, tagName: Option<string>, children: seq<Node<E>>, extra: E)

  /** The keys every object inherits from `Object.prototype`. */
  const ObjectPrototypeKeys: set<string> := {
    "constructor", "hasOwnProperty", "isPrototypeOf", "propertyIsEnumerable",
    "toLocaleString", "toString", "valueOf", "__proto__",
    "__defineGetter__", "__defineSetter__", "__lookupGetter__", "__lookupSetter__"
  }

  /** The property key a `tagName` becomes in `tagName in components`. */
  function Key(tagName: Option<string>): (k: string)
  {
    match tagName
    case Some(s) => s
    case None => "undefined"
  }

  /** `key in components` as JavaScript evaluates it on an object literal whose
      own keys are `components`: inherited keys count as well. */
  predicate InObject(components: set<string>, key: string)
  {
    key in components || key in ObjectPrototypeKeys
  }

  /** A `<p>` element whose only child is an element. */
  predicate WrapsElement<E>(c: Node<E>)
  {
    c.kind == "element" && c.tagName == Some("p") && |c.children| == 1 && c.children[0].kind == "element"
  }

  /** A `<p>` element whose only child is an element that the registry test accepts. */
  predicate Wraps<E>(isComponent: string -> bool, c: Node<E>)
  {
    WrapsElement(c) && isComponent(Key(c.children[0].tagName))
  }

  /** A child of the root after unwrapping: its sole child when it wraps a component, else itself. */
  function UnwrapChild<E>(isComponent: string -> bool, c: Node<E>): (r: Node<E>)
    ensures r == c <==> !Wraps(isComponent, c)
    ensures Wraps(isComponent, c) ==> r == c.children[0]
  {
    if Wraps(isComponent, c) then c.children[0] else c
  }

  /** `unwrap` with a given registry test, mapped over the root's children. */
  function UnwrapBy<E>(isComponent: string -> bool, tree: Node<E>): (r: Node<E>)
    ensures tree.kind != "root" ==> r == tree
    ensures r.kind == tree.kind && r.tagName == tree.tagName && r.extra == tree.extra
    ensures |r.children| == |tree.children|
    ensures tree.kind == "root" ==> forall k :: 0 <= k < |tree.children| ==>
              (r.children[k] == tree.children[k] <==> !Wraps(isComponent, tree.children[k])) &&
              (Wraps(isComponent, tree.children[k]) ==> r.children[k] == tree.children[k].children[0])
  {
    if tree.kind == "root" then
      tree.(children := MapUnwrap(isComponent, tree.children))
    else
      tree
  }

  /** `children.map(...)`. */
  function MapUnwrap<E>(isComponent: string -> bool, cs: seq<Node<E>>): (r: seq<Node<E>>)
    ensures |r| == |cs|
    ensures forall k :: 0 <= k < |cs| ==> r[k] == UnwrapChild(isComponent, cs[k])
  {
    if cs == [] then [] else [UnwrapChild(isComponent, cs[0])] + MapUnwrap(isComponent, cs[1..])
  }

  /** `unwrap` as written: `tagName in components` on an object literal, so a
      wrapped element is lifted when its tag is an own key of the registry or a
      key inherited from `Object.prototype`. */
  function UnwrapAsWritten<E>(components: set<string>, tree: Node<E>): (r: Node<E>)
    ensures tree.kind != "root" ==> r == tree
    ensures |r.children| == |tree.children|
    ensures tree.kind == "root" ==> forall k :: 0 <= k < |tree.children| ==>
              (r.children[k] != tree.children[k] <==>
                 WrapsElement(tree.children[k]) && InObject(components, Key(tree.children[k].children[0].tagName))) &&
              (r.children[k] != tree.children[k] ==> r.children[k] == tree.children[k].children[0])
  {
    UnwrapBy(k => InObject(components, k), tree)
  }

  /** `unwrap` as intended: a wrapped element is lifted exactly when its tag is
      an own key of the registry. */
  function Unwrap<E>(components: set<string>, tree: Node<E>): (r: Node<E>)
    ensures tree.kind != "root" ==> r == tree
    ensures |r.children| == |tree.children|
    ensures tree.kind == "root" ==> forall k :: 0 <= k < |tree.children| ==>
              (r.children[k] != tree.children[k] <==>
                 WrapsElement(tree.children[k]) && Key(tree.children[k].children[0].tagName) in components) &&
              (r.children[k] != tree.children[k] ==> r.children[k] == tree.children[k].children[0])
  {
    UnwrapBy(k => k in components, tree)
  }

  /** The registry of the template is empty. */
  const Components: set<string> := {}

  /** `unwrap` is one level deep: every child of the result is a child or a
      grandchild of the input, subtree and all. */
  lemma UnwrapOneLevel<E>(isComponent: string -> bool, tree: Node<E>, k: nat)
    requires k < |tree.children|
    ensures UnwrapBy(isComponent, tree).children[k] == tree.children[k] ||
            (|tree.children[k].children| == 1 &&
             UnwrapBy(isComponent, tree).children[k] == tree.children[k].children[0])
  {
    assert Wraps(isComponent, tree.children[k]) ==> |tree.children[k].children| == 1;
  }

  /** With the empty registry, `unwrap` changes nothing. */
  lemma UnwrapEmptyRegistryIdentity<E>(tree: Node<E>)
    ensures Unwrap(Components, tree) == tree
  {
    var isComponent := (s: string) => s in Components;
    var r := UnwrapBy(isComponent, tree);
    forall k | 0 <= k < |tree.children| ensures r.children[k] == tree.children[k] {
      assert !Wraps(isComponent, tree.children[k]);
    }
    assert r.children == tree.children;
  }

  /** As written, the empty registry still lifts an element named `constructor`
      out of its paragraph, since `"constructor" in {}` holds. */
  lemma UnwrapAsWrittenNotIdentity()
    ensures var inner := Node("element", Some("constructor"), [], 0);
            var para := Node("element", Some("p"), [inner], 0);
            var tree := Node("root", None, [para], 0);
            UnwrapAsWritten(Components, tree) == Node("root", None, [inner], 0) &&
            UnwrapAsWritten(Components, tree) != tree
  {
    var inner := Node("element", Some("constructor"), [], 0);
    var para := Node("element", Some("p"), [inner], 0);
    var tree := Node("root", None, [para], 0);
    var isComponent := (s: string) => InObject(Components, s);
    assert Wraps(isComponent, para);
    var r := UnwrapBy(isComponent, tree);
    assert r.children == [inner];
  }

  // ---------------------------------------------------------------------------
  // The list of tutorial pages.

  datatype Frontmatter = Frontmatter(path: string, title: string)
  datatype PageNode = PageNode(frontmatter: Frontmatter)
  datatype Edge = Edge(node: PageNode)

  /** A tutorial page as the sidebar and the footer see it. */
  datatype Page = Page(link: string, title: string)

  /** `allPages.edges.map(...)`: each edge's front-matter path and title, in order. */
  function Pages(edges: seq<Edge>): (r: seq<Page>)
    ensures |r| == |edges|
    ensures forall k :: 0 <= k < |edges| ==>
              r[k].link == edges[k].node.frontmatter.path && r[k].title == edges[k].node.frontmatter.title
  {
    if edges == [] then []
    else [Page(edges[0].node.frontmatter.path, edges[0].node.frontmatter.title)] + Pages(edges[1..])
  }
}
