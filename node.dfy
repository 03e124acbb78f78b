/**
 * The minimal part of the builder's `Node` that the pull-parse driver uses:
 * a qualified name, an attribute map (the `xmlns` property is the attribute
 * named "xmlns"), the list of namespace declarations made on the node in call
 * order, and an ordered child list of elements and text.
 *
 * A `Node` is a value here; the one node the driver keeps updating across calls
 * (the root accumulator) is a field of `PullBuilder.BuildProcess` that is
 * reassigned on every update.
 */
module XmlNode {
  import opened Wrappers

  datatype Child = NodeChild(node: Node) | TextChild(text: string)

  datatype Node = Node(
    name: string,
    attributes: map<string, string>,
    namespaces: seq<(string, string)>,
    children: seq<Child>)
  {
    /** `node.attribute(name, value)` with a non-null value: sets the attribute. */
    function Attribute(key: string, value: string): (r: Node)
      ensures r.attributes == attributes[key := value]
      ensures r.name == name && r.namespaces == namespaces && r.children == children
    {
      this.(attributes := attributes[key := value])
    }

    /** `node.namespace(name, uri)`: records one namespace declaration. */
    function Namespace(decl: string, uri: string): (r: Node)
      ensures r.namespaces == namespaces + [(decl, uri)]
      ensures r.name == name && r.attributes == attributes && r.children == children
    {
      this.(namespaces := namespaces + [(decl, uri)])
    }

    /** `node.addNode(child)`: appends an element child. */
    function AddNode(child: Node): (r: Node)
      ensures r.children == children + [NodeChild(child)]
      ensures r.name == name && r.attributes == attributes && r.namespaces == namespaces
    {
      this.(children := children + [NodeChild(child)])
    }

    /** `node.text(s)`: appends a text child. */
    function Text(s: string): (r: Node)
      ensures r.children == children + [TextChild(s)]
      ensures r.name == name && r.attributes == attributes && r.namespaces == namespaces
    {
      this.(children := children + [TextChild(s)])
    }

    /** The `xmlns` property: the value of the attribute "xmlns", if any. */
    function Xmlns(): (r: Option<string>)
      ensures r.Some? <==> "xmlns" in attributes
      ensures r.Some? ==> r.value == attributes["xmlns"]
    {
      if "xmlns" in attributes then Some(attributes["xmlns"]) else None
    }

    /** Namespace declarations made one after the other, in order. */
    function DeclareAll(decls: seq<(string, string)>): (r: Node)
      ensures r.namespaces == namespaces + decls
      ensures r.name == name && r.attributes == attributes && r.children == children
      decreases |decls|
    {
      if decls == [] then this
      else
        var last := decls[|decls| - 1];
        DeclareAll(decls[..|decls| - 1]).Namespace(last.0, last.1)
    }
  }

  /** `a` is `b` with the declarations `decls` made on it. */
  predicate DeclaredOn(a: Node, b: Node, decls: seq<(string, string)>) {
    a.name == b.name && a.attributes == b.attributes && a.children == b.children &&
    a.namespaces == b.namespaces + decls
  }

  lemma DeclaredOnIsDeclareAll(a: Node, b: Node, decls: seq<(string, string)>)
    requires DeclaredOn(a, b, decls)
    ensures a == b.DeclareAll(decls)
  {
  }

  /** `Node(name)`: a fresh node with nothing in it. */
  function NewNode(name: string): (r: Node)
    ensures r.name == name && r.attributes == map[] && r.namespaces == [] && r.children == []
  {
    Node(name, map[], [], [])
  }

  /** `xml(name) { xmlns = ns }`: a fresh node whose default namespace is `ns`. */
  function Xml(name: string, ns: string): (r: Node)
    ensures r.name == name && r.Xmlns() == Some(ns) && r.attributes.Keys == {"xmlns"}
    ensures r.namespaces == [] && r.children == []
  {
    NewNode(name).Attribute("xmlns", ns)
  }
}
