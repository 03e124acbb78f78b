/**
 * Well-formed documents as trees, the event sequences a pull parser reports
 * for them, and what `BuildProcess.parseSubTree` makes of those events: the
 * returned element tree (`Shape`) and the root accumulator (`Collect`),
 * defined here independently of the parse and proved equal to it.
 */
module Documents {
  import opened Wrappers
  import opened XmlNode
  import opened Names
  import opened PullParser
  import opened NamespaceScan
  import opened ParseSpec

  /** A document element: its start tag as the parser reports it, and its content in order. */
  datatype Elem = Elem(
    name: string, namespace: string, prefix: Option<string>,
    attributes: seq<Attr>, depth: nat, table: NamespaceTable,
    content: seq<Item>)

  datatype Item = ElemItem(elem: Elem) | TextItem(text: string)

  /** Every element of the tree carries a namespace table the parser could report. */
  predicate Wf(e: Elem)
    decreases e
  {
    ValidTable(e.depth, e.table) &&
    forall k :: 0 <= k < |e.content| && e.content[k].ElemItem? ==> Wf(e.content[k].elem)
  }

  function StartEvent(e: Elem): (ev: Event) {
    StartTag(e.name, e.namespace, e.prefix, e.attributes, e.depth, e.table)
  }

  function EndEvent(e: Elem): (ev: Event) {
    EndTag(e.name, e.namespace)
  }

  /** The events of an element: its start tag, the events of its content, its end tag. */
  function Events(e: Elem): (r: seq<Event>)
    decreases e, 1
  {
    [StartEvent(e)] + ContentEvents(e, 0) + [EndEvent(e)]
  }

  /** The events of the content items from index `k` on. */
  function ContentEvents(e: Elem, k: nat): (r: seq<Event>)
    requires k <= |e.content|
    decreases e, 0, |e.content| - k
  {
    if k == |e.content| then []
    else
      (match e.content[k]
       case ElemItem(c) => Events(c)
       case TextItem(t) => [Text(t)]) + ContentEvents(e, k + 1)
  }

  /**
   * The element the parse returns: named by the qualified name, with no
   * attributes and no namespace declarations, its element children built
   * the same way and its text children trimmed.
   */
  function Shape(e: Elem): (n: Node)
    decreases e, 1
  {
    Node(QName(e.prefix, e.name), map[], [], ShapeFrom(e, 0))
  }

  function ShapeFrom(e: Elem, k: nat): (cs: seq<Child>)
    requires k <= |e.content|
    decreases e, 0, |e.content| - k
  {
    if k == |e.content| then []
    else
      [match e.content[k]
       case ElemItem(c) => NodeChild(Shape(c))
       case TextItem(t) => TextChild(Trim(t))] + ShapeFrom(e, k + 1)
  }

  /** What entering a nested element does to the root accumulator `r`: its new declarations, then its attributes. */
  function Visit(r: Node, e: Elem): (acc: Node)
    requires ValidTable(e.depth, e.table)
  {
    CopyAttributes(r.DeclareAll(NamespaceDecls(false, e.depth, e.table)), e.attributes)
  }

  /** The root accumulator after a nested element: the element is visited, then its content, in document order. */
  function Collect(r: Node, e: Elem): (acc: Node)
    requires Wf(e)
    decreases e, 1
  {
    CollectFrom(Visit(r, e), e, 0)
  }

  function CollectFrom(r: Node, e: Elem, k: nat): (acc: Node)
    requires Wf(e) && k <= |e.content|
    decreases e, 0, |e.content| - k
  {
    if k == |e.content| then r
    else
      var r' := match e.content[k]
        case ElemItem(c) => Collect(r, c)
        case TextItem(_) => r;
      CollectFrom(r', e, k + 1)
  }

  /** The root accumulator the first element creates: the full namespace scan, then its attributes. */
  function First(e: Elem): (r: Node)
    requires ValidTable(e.depth, e.table)
  {
    CopyAttributes(Xml(QName(e.prefix, e.name), e.namespace).DeclareAll(NamespaceDecls(true, e.depth, e.table)), e.attributes)
  }

  /** `out` is a successful parse returning `n`, with the parser at `pos` and the root accumulator `root`. */
  predicate Returns(out: (Result<Node, ParseError>, State), n: Node, pos: nat, root: Node) {
    out.0 == Ok(n) && out.1 == State(pos, false, Some(root))
  }

  /** `n` with the children `cs` appended. */
  function Grown(n: Node, cs: seq<Child>): (r: Node)
    ensures r.name == n.name && r.attributes == n.attributes && r.namespaces == n.namespaces
    ensures r.children == n.children + cs
  {
    Node(n.name, n.attributes, n.namespaces, n.children + cs)
  }

  /**
   * Carries a successful parse over to an equal one, with equal fields; a
   * separate step keeps the solver from expanding the parse functions when
   * it compares them.
   */
  lemma ReturnsTransfer(a: (Result<Node, ParseError>, State), b: (Result<Node, ParseError>, State),
                        n: Node, n': Node, pos: nat, pos': nat, root: Node, root': Node)
    requires a == b
    requires Returns(b, n, pos, root)
    requires n == n'
    requires pos == pos'
    requires root == root'
    ensures Returns(a, n', pos', root')
  {
  }

  /** Concatenation regroups; stated once so that the solver need not compare the sequences element by element. */
  lemma AppendAssoc<T>(a: seq<T>, b: seq<T>, c: seq<T>)
    ensures (a + b) + c == a + (b + c)
  {
  }

  /** The events `xs` appear in `events` from index `k` on. */
  predicate Occurs(events: seq<Event>, k: nat, xs: seq<Event>) {
    k + |xs| <= |events| && events[k..k + |xs|] == xs
  }

  lemma OccursSplit(events: seq<Event>, k: nat, xs: seq<Event>, ys: seq<Event>)
    requires Occurs(events, k, xs + ys)
    ensures Occurs(events, k, xs) && Occurs(events, k + |xs|, ys)
  {
    assert events[k..k + |xs|] == (xs + ys)[..|xs|];
    assert events[k + |xs|..k + |xs| + |ys|] == (xs + ys)[|xs|..];
  }

  lemma OccursHead(events: seq<Event>, k: nat, xs: seq<Event>)
    requires Occurs(events, k, xs) && xs != []
    ensures k < |events| && events[k] == xs[0]
  {
    assert events[k..k + |xs|][0] == events[k];
  }

  /**
   * Parsing the content from item `k` on with the parser at `st.pos`, just
   * before those events: every item becomes a child of `parent`, the
   * accumulator collects the nested elements, and the loop stops on the
   * element's own end tag.
   */
  lemma {:induction false} ParseContent(events: seq<Event>, e: Elem, k: nat, st: State, parent: Node)
    requires ValidEvents(events) && Wf(e) && k <= |e.content|
    requires st.pos < |events| && st.root.Some? && !st.scanNamespaces
    requires Occurs(events, st.pos + 1, ContentEvents(e, k) + [EndEvent(e)])
    ensures Returns(Children(events, st, parent, e.name, e.namespace),
      Grown(parent, ShapeFrom(e, k)), st.pos + |ContentEvents(e, k)| + 1, CollectFrom(st.root.value, e, k))
    decreases e, 0, |e.content| - k, 2
  {
    if k == |e.content| {
      ContentEnd(events, e, st, parent);
    } else if e.content[k].TextItem? {
      ContentText(events, e, k, st, parent);
    } else {
      ContentElement(events, e, k, st, parent);
    }
  }

  lemma ContentEnd(events: seq<Event>, e: Elem, st: State, parent: Node)
    requires ValidEvents(events) && Wf(e)
    requires st.pos < |events| && st.root.Some? && !st.scanNamespaces
    requires Occurs(events, st.pos + 1, ContentEvents(e, |e.content|) + [EndEvent(e)])
    ensures Returns(Children(events, st, parent, e.name, e.namespace),
      Grown(parent, ShapeFrom(e, |e.content|)), st.pos + |ContentEvents(e, |e.content|)| + 1,
      CollectFrom(st.root.value, e, |e.content|))
  {
    var k := |e.content|;
    assert ContentEvents(e, k) + [EndEvent(e)] == [EndEvent(e)];
    OccursHead(events, st.pos + 1, [EndEvent(e)]);
    assert NextPos(events, st.pos) == st.pos + 1;
    assert Grown(parent, ShapeFrom(e, k)) == parent;
  }

  lemma {:induction false} ContentText(events: seq<Event>, e: Elem, k: nat, st: State, parent: Node)
    requires ValidEvents(events) && Wf(e) && k < |e.content| && e.content[k].TextItem?
    requires st.pos < |events| && st.root.Some? && !st.scanNamespaces
    requires Occurs(events, st.pos + 1, ContentEvents(e, k) + [EndEvent(e)])
    ensures Returns(Children(events, st, parent, e.name, e.namespace),
      Grown(parent, ShapeFrom(e, k)), st.pos + |ContentEvents(e, k)| + 1, CollectFrom(st.root.value, e, k))
    decreases e, 0, |e.content| - k, 1
  {
    var st1 := TextOccurs(events, e, k, st);
    ParseContent(events, e, k + 1, st1, parent.Text(Trim(e.content[k].text)));
    TextStep(events, e, k, st, parent, st1);
  }

  /** The text item at `k` is the next event, and the events of the items after it follow. */
  lemma TextOccurs(events: seq<Event>, e: Elem, k: nat, st: State) returns (st1: State)
    requires k < |e.content| && e.content[k].TextItem? && st.pos < |events|
    requires Occurs(events, st.pos + 1, ContentEvents(e, k) + [EndEvent(e)])
    ensures st1 == st.(pos := NextPos(events, st.pos)) && st1.pos == st.pos + 1
    ensures At(events, NextPos(events, st.pos)) == Text(e.content[k].text)
    ensures Occurs(events, st1.pos + 1, ContentEvents(e, k + 1) + [EndEvent(e)])
  {
    var p := st.pos + 1;
    var t := e.content[k].text;
    var tail := ContentEvents(e, k + 1) + [EndEvent(e)];
    assert ContentEvents(e, k) == [Text(t)] + ContentEvents(e, k + 1);
    assert ContentEvents(e, k) + [EndEvent(e)] == [Text(t)] + tail;
    OccursSplit(events, p, [Text(t)], tail);
    OccursHead(events, p, [Text(t)]);
    OccursHead(events, p + 1, tail);
    assert NextPos(events, st.pos) == p;
    st1 := st.(pos := p);
  }

  /** The text case of `ParseContent`, given the parse of the items after the text. */
  lemma TextStep(events: seq<Event>, e: Elem, k: nat, st: State, parent: Node, st1: State)
    requires ValidEvents(events) && Wf(e) && k < |e.content| && e.content[k].TextItem?
    requires st.pos < |events| && st.root.Some? && !st.scanNamespaces
    requires At(events, NextPos(events, st.pos)) == Text(e.content[k].text)
    requires st1 == st.(pos := NextPos(events, st.pos)) && st1.pos == st.pos + 1
    requires Returns(Children(events, st1, parent.Text(Trim(e.content[k].text)), e.name, e.namespace),
      Grown(parent.Text(Trim(e.content[k].text)), ShapeFrom(e, k + 1)), st1.pos + |ContentEvents(e, k + 1)| + 1,
      CollectFrom(st1.root.value, e, k + 1))
    ensures Returns(Children(events, st, parent, e.name, e.namespace),
      Grown(parent, ShapeFrom(e, k)), st.pos + |ContentEvents(e, k)| + 1, CollectFrom(st.root.value, e, k))
  {
    var t := e.content[k].text;
    TextItemUnfolds(e, k, parent, st.root.value);
    ChildrenOnText(events, st, parent, e.name, e.namespace, t, st1);
    ReturnsTransfer(Children(events, st, parent, e.name, e.namespace),
      Children(events, st1, parent.Text(Trim(t)), e.name, e.namespace),
      Grown(parent.Text(Trim(t)), ShapeFrom(e, k + 1)), Grown(parent, ShapeFrom(e, k)),
      st1.pos + |ContentEvents(e, k + 1)| + 1, st.pos + |ContentEvents(e, k)| + 1,
      CollectFrom(st1.root.value, e, k + 1), CollectFrom(st.root.value, e, k));
  }

  /** The definitions unfolded at a text item. */
  lemma TextItemUnfolds(e: Elem, k: nat, parent: Node, root: Node)
    requires Wf(e) && k < |e.content| && e.content[k].TextItem?
    ensures Grown(parent.Text(Trim(e.content[k].text)), ShapeFrom(e, k + 1)) == Grown(parent, ShapeFrom(e, k))
    ensures |ContentEvents(e, k)| == 1 + |ContentEvents(e, k + 1)|
    ensures CollectFrom(root, e, k) == CollectFrom(root, e, k + 1)
  {
    var x := TextChild(Trim(e.content[k].text));
    assert ShapeFrom(e, k) == [x] + ShapeFrom(e, k + 1);
    GrownAppend(parent.Text(Trim(e.content[k].text)), parent, x, ShapeFrom(e, k + 1));
  }

  /** Appending one child and then `rest` is appending `[x] + rest`. */
  lemma GrownAppend(m: Node, n: Node, x: Child, rest: seq<Child>)
    requires m.name == n.name && m.attributes == n.attributes && m.namespaces == n.namespaces
    requires m.children == n.children + [x]
    ensures Grown(m, rest) == Grown(n, [x] + rest)
  {
    assert (n.children + [x]) + rest == n.children + ([x] + rest);
  }

  lemma {:induction false} ContentElement(events: seq<Event>, e: Elem, k: nat, st: State, parent: Node)
    requires ValidEvents(events) && Wf(e) && k < |e.content| && e.content[k].ElemItem?
    requires st.pos < |events| && st.root.Some? && !st.scanNamespaces
    requires Occurs(events, st.pos + 1, ContentEvents(e, k) + [EndEvent(e)])
    ensures Returns(Children(events, st, parent, e.name, e.namespace),
      Grown(parent, ShapeFrom(e, k)), st.pos + |ContentEvents(e, k)| + 1, CollectFrom(st.root.value, e, k))
    decreases e, 0, |e.content| - k, 1
  {
    var st2 := ChildParses(events, e, k, st);
    ParseContent(events, e, k + 1, st2, parent.AddNode(Shape(e.content[k].elem)));
    ElementStep(events, e, k, st, parent, st2);
  }

  /**
   * The element item at `k` parses to its `Shape`, leaving the state `st2`,
   * and the events of the items after it follow.
   */
  lemma {:induction false} ChildParses(events: seq<Event>, e: Elem, k: nat, st: State) returns (st2: State)
    requires ValidEvents(events) && Wf(e) && k < |e.content| && e.content[k].ElemItem?
    requires st.pos < |events| && st.root.Some? && !st.scanNamespaces
    requires Occurs(events, st.pos + 1, ContentEvents(e, k) + [EndEvent(e)])
    ensures st2 == State(st.pos + |Events(e.content[k].elem)|, false, Some(Collect(st.root.value, e.content[k].elem)))
    ensures var out := Element(events, st.(pos := NextPos(events, st.pos)), true);
      At(events, NextPos(events, st.pos)).StartTag? &&
      out.0 == Ok(Shape(e.content[k].elem)) && out.1 == st2 &&
      st2.pos < |events| && Occurs(events, st2.pos + 1, ContentEvents(e, k + 1) + [EndEvent(e)])
    decreases e, 0, |e.content| - k, 0
  {
    var p := st.pos + 1;
    var c := e.content[k].elem;
    var st1 := st.(pos := p);
    ChildOccurs(events, e, k, p);
    EventsSplit(events, c, p);
    ParseElement(events, c, st1);
    assert NextPos(events, st.pos) == p;
    st2 := State(st.pos + |Events(c)|, false, Some(Collect(st.root.value, c)));
    assert st1.pos + |Events(c)| - 1 == st2.pos && st1.root == st.root;
  }

  /** The events of the element item at `k` come first, then those of the items after it. */
  lemma ChildOccurs(events: seq<Event>, e: Elem, k: nat, pos: nat)
    requires k < |e.content| && e.content[k].ElemItem?
    requires Occurs(events, pos, ContentEvents(e, k) + [EndEvent(e)])
    ensures var c := e.content[k].elem;
      Occurs(events, pos, Events(c)) && pos + |Events(c)| < |events| &&
      Occurs(events, pos + |Events(c)|, ContentEvents(e, k + 1) + [EndEvent(e)])
  {
    var c := e.content[k].elem;
    var tail := ContentEvents(e, k + 1) + [EndEvent(e)];
    assert ContentEvents(e, k) == Events(c) + ContentEvents(e, k + 1);
    AppendAssoc(Events(c), ContentEvents(e, k + 1), [EndEvent(e)]);
    OccursSplit(events, pos, Events(c), tail);
    OccursHead(events, pos + |Events(c)|, tail);
  }

  /** The element case of `ParseContent`, given the parse of the child element and of the items after it. */
  lemma ElementStep(events: seq<Event>, e: Elem, k: nat, st: State, parent: Node, st2: State)
    requires ValidEvents(events) && Wf(e) && k < |e.content| && e.content[k].ElemItem?
    requires st.pos < |events| && st.root.Some? && !st.scanNamespaces
    requires At(events, NextPos(events, st.pos)).StartTag?
    requires st2 == State(st.pos + |Events(e.content[k].elem)|, false, Some(Collect(st.root.value, e.content[k].elem)))
    requires var out := Element(events, st.(pos := NextPos(events, st.pos)), true);
      out.0 == Ok(Shape(e.content[k].elem)) && out.1 == st2
    requires st2.pos < |events|
    requires Returns(Children(events, st2, parent.AddNode(Shape(e.content[k].elem)), e.name, e.namespace),
      Grown(parent.AddNode(Shape(e.content[k].elem)), ShapeFrom(e, k + 1)), st2.pos + |ContentEvents(e, k + 1)| + 1,
      CollectFrom(st2.root.value, e, k + 1))
    ensures Returns(Children(events, st, parent, e.name, e.namespace),
      Grown(parent, ShapeFrom(e, k)), st.pos + |ContentEvents(e, k)| + 1, CollectFrom(st.root.value, e, k))
  {
    var child := Shape(e.content[k].elem);
    ElemItemUnfolds(e, k, parent, st.root.value);
    ChildrenOnStartTag(events, st, parent, e.name, e.namespace, st.(pos := NextPos(events, st.pos)), Ok(child), st2);
    ReturnsTransfer(Children(events, st, parent, e.name, e.namespace),
      Children(events, st2, parent.AddNode(child), e.name, e.namespace),
      Grown(parent.AddNode(child), ShapeFrom(e, k + 1)), Grown(parent, ShapeFrom(e, k)),
      st2.pos + |ContentEvents(e, k + 1)| + 1, st.pos + |ContentEvents(e, k)| + 1,
      CollectFrom(st2.root.value, e, k + 1), CollectFrom(st.root.value, e, k));
  }

  /** The definitions unfolded at an element item. */
  lemma ElemItemUnfolds(e: Elem, k: nat, parent: Node, root: Node)
    requires Wf(e) && k < |e.content| && e.content[k].ElemItem?
    ensures var c := e.content[k].elem;
      Grown(parent.AddNode(Shape(c)), ShapeFrom(e, k + 1)) == Grown(parent, ShapeFrom(e, k)) &&
      |ContentEvents(e, k)| == |Events(c)| + |ContentEvents(e, k + 1)| &&
      CollectFrom(root, e, k) == CollectFrom(Collect(root, c), e, k + 1)
  {
    var c := e.content[k].elem;
    var x := NodeChild(Shape(c));
    assert ShapeFrom(e, k) == [x] + ShapeFrom(e, k + 1);
    GrownAppend(parent.AddNode(Shape(c)), parent, x, ShapeFrom(e, k + 1));
  }

  /**
   * A nested element (the root accumulator exists, the full scan is done):
   * the parse returns `Shape(e)`, leaves the parser on the element's end tag
   * and has visited the element and its content on the accumulator.
   */
  lemma {:induction false} ParseElement(events: seq<Event>, e: Elem, st: State)
    requires ValidEvents(events) && Wf(e)
    requires st.root.Some? && !st.scanNamespaces
    requires Occurs(events, st.pos, Events(e))
    ensures Returns(Element(events, st, true), Shape(e), st.pos + |Events(e)| - 1, Collect(st.root.value, e))
    decreases e, 1
  {
    EventsSplit(events, e, st.pos);
    assert Enter(st, StartEvent(e), true) == Visit(st.root.value, e);
    ParseContent(events, e, 0, State(st.pos, false, Some(Visit(st.root.value, e))), NewNode(QName(e.prefix, e.name)));
    ShapeIsGrown(e);
  }

  /** An element's events start with its start tag and are followed by its content and end tag. */
  lemma EventsSplit(events: seq<Event>, e: Elem, pos: nat)
    requires Occurs(events, pos, Events(e))
    ensures pos < |events| && events[pos] == StartEvent(e)
    ensures Occurs(events, pos + 1, ContentEvents(e, 0) + [EndEvent(e)])
    ensures |Events(e)| == |ContentEvents(e, 0)| + 2
  {
    assert Events(e) == [StartEvent(e)] + (ContentEvents(e, 0) + [EndEvent(e)]);
    OccursSplit(events, pos, [StartEvent(e)], ContentEvents(e, 0) + [EndEvent(e)]);
    OccursHead(events, pos, Events(e));
  }

  lemma ShapeIsGrown(e: Elem)
    ensures Grown(NewNode(QName(e.prefix, e.name)), ShapeFrom(e, 0)) == Shape(e)
  {
    assert [] + ShapeFrom(e, 0) == ShapeFrom(e, 0);
  }

  /**
   * The first call of a fresh process (`parseSubTree(pp)`): the returned tree
   * is `Shape(e)` and the root accumulator is created from the first
   * element, given the full namespace scan and its attributes, and then
   * visited by every nested element in document order.
   */
  lemma ParseDocument(events: seq<Event>, e: Elem, pos: nat)
    requires ValidEvents(events) && Wf(e)
    requires Occurs(events, pos, Events(e))
    ensures Returns(Element(events, State(pos, true, None), false),
      Shape(e), pos + |Events(e)| - 1, CollectFrom(First(e), e, 0))
  {
    EventsSplit(events, e, pos);
    assert Enter(State(pos, true, None), StartEvent(e), false) == First(e);
    ParseContent(events, e, 0, State(pos, false, Some(First(e))), NewNode(QName(e.prefix, e.name)));
    ShapeIsGrown(e);
  }

  /** A node and all its element descendants carry no attributes and no namespace declarations. */
  predicate Bare(n: Node)
    decreases n
  {
    n.attributes == map[] && n.namespaces == [] &&
    forall i :: 0 <= i < |n.children| && n.children[i].NodeChild? ==> Bare(n.children[i].node)
  }

  /** The tree the parse returns is bare at every level: in particular it has no `xmlns`. */
  lemma {:induction false} ShapeIsBare(e: Elem)
    ensures Bare(Shape(e)) && Shape(e).Xmlns() == None
    decreases e, 1
  {
    ShapeFromIsBare(e, 0);
  }

  lemma {:induction false} ShapeFromIsBare(e: Elem, k: nat)
    requires k <= |e.content|
    ensures forall i :: 0 <= i < |ShapeFrom(e, k)| && ShapeFrom(e, k)[i].NodeChild? ==> Bare(ShapeFrom(e, k)[i].node)
    decreases e, 0, |e.content| - k
  {
    if k < |e.content| {
      ShapeFromIsBare(e, k + 1);
      var head := match e.content[k] case ElemItem(c) => NodeChild(Shape(c)) case TextItem(t) => TextChild(Trim(t));
      assert ShapeFrom(e, k) == [head] + ShapeFrom(e, k + 1);
      if e.content[k].ElemItem? {
        ShapeIsBare(e.content[k].elem);
      }
    }
  }

  /** No start tag in the tree reports an attribute with the local name "xmlns". */
  predicate NoXmlnsAttribute(e: Elem)
    decreases e
  {
    (forall i :: 0 <= i < |e.attributes| ==> e.attributes[i].name != "xmlns") &&
    forall k :: 0 <= k < |e.content| && e.content[k].ElemItem? ==> NoXmlnsAttribute(e.content[k].elem)
  }

  lemma CopyKeepsXmlns(n: Node, attrs: seq<Attr>)
    requires forall i :: 0 <= i < |attrs| ==> attrs[i].name != "xmlns"
    ensures CopyAttributes(n, attrs).Xmlns() == n.Xmlns()
  {
    CopiedAttributes(n, attrs, "xmlns");
  }

  /**
   * Without that condition the first element's `xmlns` can be overwritten:
   * the attribute loop copies by local name, so the last attribute named
   * "xmlns" (a prefixed `a:xmlns`, or a bare `xmlns` from a parser that does
   * not process namespaces) replaces the namespace on the accumulator.
   */
  lemma FirstXmlnsAttribute(e: Elem, i: nat)
    requires ValidTable(e.depth, e.table)
    requires i < |e.attributes| && e.attributes[i].name == "xmlns"
    requires forall j :: i < j < |e.attributes| ==> e.attributes[j].name != "xmlns"
    ensures First(e).Xmlns() == Some(e.attributes[i].value)
  {
    CopiedAttributes(Xml(QName(e.prefix, e.name), e.namespace).DeclareAll(NamespaceDecls(true, e.depth, e.table)),
      e.attributes, "xmlns");
  }

  /** Visiting nested elements never changes the accumulator's `xmlns`. */
  lemma {:induction false} CollectKeepsXmlns(r: Node, e: Elem)
    requires Wf(e) && NoXmlnsAttribute(e)
    ensures Collect(r, e).Xmlns() == r.Xmlns()
    decreases e, 1
  {
    CopyKeepsXmlns(r.DeclareAll(NamespaceDecls(false, e.depth, e.table)), e.attributes);
    CollectFromKeepsXmlns(Visit(r, e), e, 0);
  }

  lemma {:induction false} CollectFromKeepsXmlns(r: Node, e: Elem, k: nat)
    requires Wf(e) && NoXmlnsAttribute(e) && k <= |e.content|
    ensures CollectFrom(r, e, k).Xmlns() == r.Xmlns()
    decreases e, 0, |e.content| - k
  {
    if k < |e.content| {
      match e.content[k]
      case ElemItem(c) =>
        CollectKeepsXmlns(r, c);
        CollectFromKeepsXmlns(Collect(r, c), e, k + 1);
      case TextItem(_) =>
        CollectFromKeepsXmlns(r, e, k + 1);
    }
  }

  /**
   * The parse of a whole document: the returned element is named by the
   * qualified name but has no `xmlns`, while the root accumulator, built once
   * from the same element, keeps that element's namespace as its `xmlns`
   * (when no start tag reports an attribute named "xmlns").
   */
  lemma DocumentXmlns(events: seq<Event>, e: Elem, pos: nat)
    requires ValidEvents(events) && Wf(e) && NoXmlnsAttribute(e)
    requires Occurs(events, pos, Events(e))
    ensures var out := Element(events, State(pos, true, None), false);
      out.0.Ok? && out.0.value.name == QName(e.prefix, e.name) && out.0.value.Xmlns() == None &&
      out.1.root.Some? && out.1.root.value.name == QName(e.prefix, e.name) &&
      out.1.root.value.Xmlns() == Some(e.namespace)
  {
    EventsSplit(events, e, pos);
    ElementFacts(events, State(pos, true, None), false);
    ParseDocument(events, e, pos);
    ShapeIsBare(e);
    FirstKeepsXmlns(e);
  }

  /** The accumulator the first element creates, visited by the whole tree, has that element's namespace as `xmlns`. */
  lemma FirstKeepsXmlns(e: Elem)
    requires Wf(e) && NoXmlnsAttribute(e)
    ensures CollectFrom(First(e), e, 0).Xmlns() == Some(e.namespace)
  {
    var x := Xml(QName(e.prefix, e.name), e.namespace);
    CopyKeepsXmlns(x.DeclareAll(NamespaceDecls(true, e.depth, e.table)), e.attributes);
    CollectFromKeepsXmlns(First(e), e, 0);
  }

  /** The events of a list of content items, in order. */
  function ItemsEvents(items: seq<Item>): (r: seq<Event>)
    decreases |items|
  {
    if items == [] then []
    else
      (match items[0]
       case ElemItem(c) => Events(c)
       case TextItem(t) => [Text(t)]) + ItemsEvents(items[1..])
  }

  /** The children a list of content items becomes, in order. */
  function ItemsShape(items: seq<Item>): (cs: seq<Child>)
    decreases |items|
  {
    if items == [] then []
    else
      [match items[0]
       case ElemItem(c) => NodeChild(Shape(c))
       case TextItem(t) => TextChild(Trim(t))] + ItemsShape(items[1..])
  }

  /** The content from item `k` on has the events and the children of the list of those items. */
  lemma {:induction false} ContentIsItems(e: Elem, k: nat)
    requires k <= |e.content|
    ensures ContentEvents(e, k) == ItemsEvents(e.content[k..])
    ensures ShapeFrom(e, k) == ItemsShape(e.content[k..])
    decreases |e.content| - k
  {
    if k < |e.content| {
      ContentIsItems(e, k + 1);
      assert e.content[k..][0] == e.content[k];
      assert e.content[k..][1..] == e.content[k + 1..];
    } else {
      assert e.content[k..] == [];
    }
  }

  /** Two occurrences, the second starting where the first ends, make one. */
  lemma OccursJoin(events: seq<Event>, k: nat, j: nat, xs: seq<Event>, ys: seq<Event>)
    requires j == k + |xs|
    requires Occurs(events, k, xs) && Occurs(events, j, ys)
    ensures Occurs(events, k, xs + ys)
  {
    assert events[k..k + |xs| + |ys|] == events[k..k + |xs|] + events[k + |xs|..k + |xs| + |ys|];
  }

  /**
   * The converse of `ParseElement` and `ParseDocument`: a call succeeds only
   * when the events from the parser's position are those of a well-formed
   * element, and then it returns that element's `Shape` and stops on its end
   * tag. Every other input fails: a call not on a START_TAG, an event other
   * than a start tag, a text or an end tag inside an element, and an end
   * tag that does not close the element it is in.
   */
  lemma {:induction false} ParsedElement(events: seq<Event>, st: State, hasNode: bool,
                                         out: (Result<Node, ParseError>, State))
    returns (e: Elem)
    requires ValidEvents(events) && st.pos <= |events|
    requires hasNode ==> st.root.Some?
    requires out == Element(events, st, hasNode) && out.0.Ok?
    ensures Wf(e) && Occurs(events, st.pos, Events(e))
    ensures out.0.value == Shape(e)
    ensures out.1.pos == st.pos + |Events(e)| - 1
    decreases |events| - st.pos, 3
  {
    var ev := At(events, st.pos);
    var st1 := State(st.pos, false, Some(Enter(st, ev, hasNode)));
    var items := ParsedChildren(events, st1, NewNode(QName(ev.prefix, ev.name)), ev.name, ev.namespace, out);
    e := ElementOccurs(events, st.pos, out, items);
  }

  /**
   * `out` is a successful run of the children loop from `pos`: the events
   * after `pos` are those of the well-formed `items` followed by the end tag
   * `name`/`ns`, the result is `parent` grown by the items' children, and
   * the parser is on that end tag.
   */
  predicate ChildrenParsed(events: seq<Event>, pos: nat, out: (Result<Node, ParseError>, State),
                           parent: Node, name: string, ns: string, items: seq<Item>)
  {
    (forall i :: 0 <= i < |items| && items[i].ElemItem? ==> Wf(items[i].elem)) &&
    Occurs(events, pos + 1, ItemsEvents(items) + [EndTag(name, ns)]) &&
    out.0.Ok? && out.0.value == Grown(parent, ItemsShape(items)) &&
    out.1.pos == pos + |ItemsEvents(items)| + 1
  }

  /** A start tag at `pos` and a children loop that parsed `items` after it are one element's parse. */
  lemma ElementOccurs(events: seq<Event>, pos: nat, out: (Result<Node, ParseError>, State), items: seq<Item>)
    returns (e: Elem)
    requires ValidEvents(events) && At(events, pos).StartTag?
    requires var ev := At(events, pos);
      ChildrenParsed(events, pos, out, NewNode(QName(ev.prefix, ev.name)), ev.name, ev.namespace, items)
    ensures Wf(e) && Occurs(events, pos, Events(e))
    ensures out.0.value == Shape(e)
    ensures out.1.pos == pos + |Events(e)| - 1
  {
    var ev := At(events, pos);
    e := ElemOfItems(ev, items);
    assert Occurs(events, pos, [StartEvent(e)]) by {
      assert events[pos..pos + 1] == [events[pos]];
    }
    OccursConcat(events, pos, pos + 1, [StartEvent(e)], ItemsEvents(items) + [EndTag(ev.name, ev.namespace)], Events(e));
  }

  /** The element that the start tag `ev` opens and the well-formed `items` fill: its events and its shape. */
  lemma ElemOfItems(ev: Event, items: seq<Item>) returns (e: Elem)
    requires ev.StartTag? && ValidTable(ev.depth, ev.table)
    requires forall i :: 0 <= i < |items| && items[i].ElemItem? ==> Wf(items[i].elem)
    ensures Wf(e) && StartEvent(e) == ev
    ensures Events(e) == [StartEvent(e)] + (ItemsEvents(items) + [EndTag(ev.name, ev.namespace)])
    ensures Shape(e) == Grown(NewNode(QName(ev.prefix, ev.name)), ItemsShape(items))
  {
    e := Elem(ev.name, ev.namespace, ev.prefix, ev.attributes, ev.depth, ev.table, items);
    ContentIsItems(e, 0);
    assert e.content[0..] == items;
  }

  /**
   * The children loop succeeds only when the events after the parser's
   * position are those of a list of well-formed items followed by the end
   * tag `name`/`ns`; it then appends the items' children to `parent`.
   */
  lemma {:induction false} ParsedChildren(events: seq<Event>, st: State, parent: Node, name: string, ns: string,
                                          out: (Result<Node, ParseError>, State))
    returns (items: seq<Item>)
    requires ValidEvents(events) && st.pos < |events| && st.root.Some? && !st.scanNamespaces
    requires out == Children(events, st, parent, name, ns) && out.0.Ok?
    ensures ChildrenParsed(events, st.pos, out, parent, name, ns, items)
    decreases |events| - st.pos, 2
  {
    match At(events, NextPos(events, st.pos))
    case EndTag(_, _) =>
      ChildrenOnEndTag(events, st, parent, name, ns);
      items := NoItemsOccur(events, st.pos, parent, name, ns);
    case StartTag(_, _, _, _, _, _) =>
      items := ParsedStartTag(events, st, parent, name, ns, out);
    case Text(t) =>
      items := ParsedText(events, st, parent, name, ns, t, out);
    case Other(_) =>
      ChildrenOnOther(events, st, parent, name, ns);
  }

  /** The start-tag case of `ParsedChildren`. */
  lemma {:induction false} ParsedStartTag(events: seq<Event>, st: State, parent: Node, name: string, ns: string,
                                          out: (Result<Node, ParseError>, State))
    returns (items: seq<Item>)
    requires ValidEvents(events) && st.pos < |events| && st.root.Some? && !st.scanNamespaces
    requires At(events, NextPos(events, st.pos)).StartTag?
    requires out == Children(events, st, parent, name, ns) && out.0.Ok?
    ensures ChildrenParsed(events, st.pos, out, parent, name, ns, items)
    decreases |events| - st.pos, 1
  {
    var c, st2 := ParsedChild(events, st, parent, name, ns, out);
    var rest := ParsedChildren(events, st2, parent.AddNode(Shape(c)), name, ns, out);
    items := ElemItemStep(events, st.pos, st2.pos, out, parent, name, ns, c, rest);
  }

  /** The child element that a successful children loop parses first when it meets a start tag, and the state after it. */
  lemma {:induction false} ParsedChild(events: seq<Event>, st: State, parent: Node, name: string, ns: string,
                                       out: (Result<Node, ParseError>, State))
    returns (c: Elem, st2: State)
    requires ValidEvents(events) && st.pos < |events| && st.root.Some? && !st.scanNamespaces
    requires At(events, NextPos(events, st.pos)).StartTag?
    requires out == Children(events, st, parent, name, ns) && out.0.Ok?
    ensures Wf(c) && Occurs(events, st.pos + 1, Events(c))
    ensures st2.pos == st.pos + |Events(c)| && st2.pos < |events| && st2.root.Some? && !st2.scanNamespaces
    ensures out == Children(events, st2, parent.AddNode(Shape(c)), name, ns)
    decreases |events| - st.pos, 0
  {
    var st1 := st.(pos := NextPos(events, st.pos));
    var child := Element(events, st1, true);
    ChildrenOnStartTag(events, st, parent, name, ns, st1, child.0, child.1);
    c := ParsedElement(events, st1, true, child);
    st2 := child.1;
  }

  /** The text case of `ParsedChildren`. */
  lemma {:induction false} ParsedText(events: seq<Event>, st: State, parent: Node, name: string, ns: string, t: string,
                                      out: (Result<Node, ParseError>, State))
    returns (items: seq<Item>)
    requires ValidEvents(events) && st.pos < |events| && st.root.Some? && !st.scanNamespaces
    requires At(events, NextPos(events, st.pos)) == Text(t)
    requires out == Children(events, st, parent, name, ns) && out.0.Ok?
    ensures ChildrenParsed(events, st.pos, out, parent, name, ns, items)
    decreases |events| - st.pos, 1
  {
    var st1 := st.(pos := NextPos(events, st.pos));
    ChildrenOnText(events, st, parent, name, ns, t, st1);
    var rest := ParsedChildren(events, st1, parent.Text(Trim(t)), name, ns, out);
    items := TextItemStep(events, st.pos, out, parent, name, ns, t, rest);
  }

  /** An element `c` after `pos`, then the items `rest` that the loop parsed from `last` on, are the items `[c] + rest`. */
  lemma ElemItemStep(events: seq<Event>, pos: nat, last: nat, out: (Result<Node, ParseError>, State),
                     parent: Node, name: string, ns: string, c: Elem, rest: seq<Item>)
    returns (items: seq<Item>)
    requires Wf(c) && Occurs(events, pos + 1, Events(c)) && last == pos + |Events(c)|
    requires ChildrenParsed(events, last, out, parent.AddNode(Shape(c)), name, ns, rest)
    ensures ChildrenParsed(events, pos, out, parent, name, ns, items)
  {
    items := ElemItemCons(c, rest, EndTag(name, ns));
    OccursConcat(events, pos + 1, last + 1, Events(c), ItemsEvents(rest) + [EndTag(name, ns)],
      ItemsEvents(items) + [EndTag(name, ns)]);
    GrownAppend(parent.AddNode(Shape(c)), parent, NodeChild(Shape(c)), ItemsShape(rest));
  }

  /** A text event right after `pos`, then the items `rest` that the loop parsed after it, are the items `[t] + rest`. */
  lemma TextItemStep(events: seq<Event>, pos: nat, out: (Result<Node, ParseError>, State),
                     parent: Node, name: string, ns: string, t: string, rest: seq<Item>)
    returns (items: seq<Item>)
    requires pos < |events| && At(events, NextPos(events, pos)) == Text(t)
    requires ChildrenParsed(events, NextPos(events, pos), out, parent.Text(Trim(t)), name, ns, rest)
    ensures ChildrenParsed(events, pos, out, parent, name, ns, items)
  {
    items := TextItemOccurs(events, pos, t, rest, name, ns);
    GrownAppend(parent.Text(Trim(t)), parent, TextChild(Trim(t)), ItemsShape(rest));
  }

  /** The end tag right after `pos` is an empty list of items followed by it. */
  lemma NoItemsOccur(events: seq<Event>, pos: nat, parent: Node, name: string, ns: string) returns (items: seq<Item>)
    requires pos < |events| && At(events, NextPos(events, pos)) == EndTag(name, ns)
    ensures items == [] && NextPos(events, pos) == pos + 1
    ensures Occurs(events, pos + 1, ItemsEvents(items) + [EndTag(name, ns)])
    ensures Grown(parent, ItemsShape(items)) == parent
  {
    items := [];
    assert events[pos + 1..pos + 2] == [EndTag(name, ns)];
    assert ItemsEvents(items) + [EndTag(name, ns)] == [EndTag(name, ns)];
  }

  /** `OccursJoin` for a sequence `zs` that is the concatenation of `xs` and `ys`. */
  lemma OccursConcat(events: seq<Event>, k: nat, j: nat, xs: seq<Event>, ys: seq<Event>, zs: seq<Event>)
    requires j == k + |xs| && zs == xs + ys
    requires Occurs(events, k, xs) && Occurs(events, j, ys)
    ensures Occurs(events, k, zs) && |zs| == |xs| + |ys|
  {
    OccursJoin(events, k, j, xs, ys);
  }

  /** The events and children of the items `[c] + rest`, followed by `end`. */
  lemma ElemItemCons(c: Elem, rest: seq<Item>, end: Event) returns (items: seq<Item>)
    requires Wf(c)
    requires forall i :: 0 <= i < |rest| && rest[i].ElemItem? ==> Wf(rest[i].elem)
    ensures items == [ElemItem(c)] + rest
    ensures forall i :: 0 <= i < |items| && items[i].ElemItem? ==> Wf(items[i].elem)
    ensures ItemsEvents(items) + [end] == Events(c) + (ItemsEvents(rest) + [end])
    ensures ItemsShape(items) == [NodeChild(Shape(c))] + ItemsShape(rest)
  {
    items := [ElemItem(c)] + rest;
    assert items[0] == ElemItem(c) && items[1..] == rest;
  }

  /** A text event right after `pos`, then the events of `rest` and the end tag, are the items `[t] + rest` and the end tag. */
  lemma TextItemOccurs(events: seq<Event>, pos: nat, t: string, rest: seq<Item>, name: string, ns: string)
    returns (items: seq<Item>)
    requires pos < |events| && At(events, NextPos(events, pos)) == Text(t)
    requires Occurs(events, NextPos(events, pos) + 1, ItemsEvents(rest) + [EndTag(name, ns)])
    ensures items == [TextItem(t)] + rest && NextPos(events, pos) == pos + 1
    ensures Occurs(events, pos + 1, ItemsEvents(items) + [EndTag(name, ns)])
    ensures |ItemsEvents(items)| == 1 + |ItemsEvents(rest)|
    ensures ItemsShape(items) == [TextChild(Trim(t))] + ItemsShape(rest)
  {
    items := [TextItem(t)] + rest;
    assert items[0] == TextItem(t) && items[1..] == rest;
    assert Occurs(events, pos + 1, [Text(t)]) by {
      assert events[pos + 1..pos + 2] == [Text(t)];
    }
    OccursJoin(events, pos + 1, NextPos(events, pos) + 1, [Text(t)], ItemsEvents(rest) + [EndTag(name, ns)]);
    assert ItemsEvents(items) + [EndTag(name, ns)] == [Text(t)] + (ItemsEvents(rest) + [EndTag(name, ns)]);
  }

  /**
   * A fresh process parses successfully from `pos` exactly when the events
   * from `pos` on begin with those of a well-formed element.
   */
  lemma ParseSucceedsIff(events: seq<Event>, pos: nat)
    requires ValidEvents(events) && pos <= |events|
    ensures Element(events, State(pos, true, None), false).0.Ok? <==> exists e :: Wf(e) && Occurs(events, pos, Events(e))
  {
    if exists e :: Wf(e) && Occurs(events, pos, Events(e)) {
      var e :| Wf(e) && Occurs(events, pos, Events(e));
      ParseDocument(events, e, pos);
    }
    if Element(events, State(pos, true, None), false).0.Ok? {
      var e := ParsedElement(events, State(pos, true, None), false, Element(events, State(pos, true, None), false));
    }
  }
}
