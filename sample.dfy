/**
 * The document of the repository's `parseAndVerify` test,
 * `<root xmlns="http://blog.redundent.org"><child>value</child></root>`, as
 * the events a namespace-aware pull parser reports for it, and what one
 * `parseSubTree(pp)` makes of them; then a document with a prefixed
 * attribute named "xmlns", which replaces the accumulator's `xmlns`.
 */
module SampleDocument {
  import opened Wrappers
  import opened XmlNode
  import opened Names
  import opened PullParser
  import opened NamespaceScan
  import opened ParseSpec
  import opened Documents

  const Blog: string := "http://blog.redundent.org"

  /** The one namespace declaration, made on `root` (depth 1) and still in scope on `child` (depth 2). */
  const Table1: NamespaceTable := NamespaceTable([NsEntry(None, Blog)], [0, 1])
  const Table2: NamespaceTable := NamespaceTable([NsEntry(None, Blog)], [0, 1, 1])

  const Child: Elem := Elem("child", Blog, None, [], 2, Table2, [TextItem("value")])
  const Root: Elem := Elem("root", Blog, None, [], 1, Table1, [ElemItem(Child)])

  const SampleEvents: seq<Event> := [
    StartTag("root", Blog, None, [], 1, Table1),
    StartTag("child", Blog, None, [], 2, Table2),
    Text("value"),
    EndTag("child", Blog),
    EndTag("root", Blog)]

  /** The sample's events are those of the tree `Root`, and the tree is one the parser could report. */
  lemma SampleEventsAreRoot()
    ensures ValidEvents(SampleEvents) && Wf(Root) && Events(Root) == SampleEvents
  {
    assert Wf(Child);
    assert ContentEvents(Child, 1) == [] && ContentEvents(Root, 1) == [];
    assert ContentEvents(Child, 0) == [Text("value")];
    assert Events(Child) == SampleEvents[1..4];
    assert ContentEvents(Root, 0) == Events(Child);
  }

  /** The tree the parse returns for `Root`; the text "value" has nothing to trim. */
  lemma SampleShape()
    ensures Shape(Root) == Node("root", map[], [], [NodeChild(Node("child", map[], [], [TextChild("value")]))])
  {
    assert TrimmedAt("value", 0, 5);
    TrimUnique("value", 0, 5);
    assert Trim("value") == "value"[0..5] == "value";
    assert ShapeFrom(Child, 1) == [] && ShapeFrom(Root, 1) == [];
    assert ShapeFrom(Child, 0) == [TextChild(Trim("value"))] + [];
    assert Shape(Child) == Node("child", map[], [], [TextChild("value")]);
    assert ShapeFrom(Root, 0) == [NodeChild(Shape(Child))] + [];
    assert QName(None, "root") == "root";
  }

  /** The accumulator: created with `xmlns` and the full scan's one declaration; "child" declares nothing new. */
  lemma SampleAccumulator()
    ensures Wf(Root)
    ensures CollectFrom(First(Root), Root, 0) == Node("root", map["xmlns" := Blog], [("xmlns", Blog)], [])
  {
    assert Wf(Child);
    var first := Node("root", map["xmlns" := Blog], [("xmlns", Blog)], []);
    assert ScanDecls(Table1.entries, 0, 1) == [("xmlns", Blog)];
    assert First(Root) == first;
    assert DeltaDecls(Table2.entries, 1, 1) == [];
    assert Visit(first, Child) == first;
    assert CollectFrom(first, Child, 1) == first;
    assert Collect(first, Child) == first;
    assert CollectFrom(first, Root, 1) == first;
  }

  /**
   * The returned element is "root" with the single element child "child",
   * whose single child is the text "value", as the test expects; but it has
   * no `xmlns`, which the test also expects. The namespace went to the root
   * accumulator instead, as its `xmlns` and as its one declaration.
   */
  lemma ParseAndVerify()
    ensures var out := Element(SampleEvents, State(0, true, None), false);
      out.0 == Ok(Node("root", map[], [], [NodeChild(Node("child", map[], [], [TextChild("value")]))])) &&
      out.0.value.Xmlns() == None &&
      out.1.pos == 4 &&
      out.1.root == Some(Node("root", map["xmlns" := Blog], [("xmlns", Blog)], [])) &&
      out.1.root.value.Xmlns() == Some(Blog)
  {
    SampleEventsAreRoot();
    assert Occurs(SampleEvents, 0, Events(Root));
    ParseDocument(SampleEvents, Root, 0);
    SampleShape();
    SampleAccumulator();
  }

  /**
   * `<root xmlns="urn:x" xmlns:a="urn:a" a:xmlns="v"/>`: the parser reports
   * the two declarations in the namespace table and `a:xmlns` as an
   * attribute with the local name "xmlns".
   */
  const Prefixed: Elem := Elem("root", "urn:x", None, [Attr("urn:a", "xmlns", "v")], 1,
    NamespaceTable([NsEntry(None, "urn:x"), NsEntry(Some("a"), "urn:a")], [0, 2]), [])

  /** The attribute's value, not the element's namespace, ends up as the accumulator's `xmlns`. */
  lemma PrefixedXmlnsAttribute()
    ensures var out := Element(Events(Prefixed), State(0, true, None), false);
      out.0.Ok? && out.0.value.Xmlns() == None &&
      out.1.root.Some? && out.1.root.value.Xmlns() == Some("v")
  {
    var events := Events(Prefixed);
    assert ContentEvents(Prefixed, 0) == [];
    assert events == [StartEvent(Prefixed), EndEvent(Prefixed)];
    assert Wf(Prefixed) && ValidEvents(events);
    assert Occurs(events, 0, Events(Prefixed));
    ParseDocument(events, Prefixed, 0);
    ShapeIsBare(Prefixed);
    assert CollectFrom(First(Prefixed), Prefixed, 0) == First(Prefixed);
    FirstXmlnsAttribute(Prefixed, 0);
  }
}
