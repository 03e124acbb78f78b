/**
 * The recursive descent of `BuildProcess.parseSubTree` (NodeXmlPullBuilder.kt,
 * lines 46-103) as functions of the event sequence and of the process state:
 * the parser position, the `scanNamespaces` flag and the root accumulator.
 * `PullBuilder.BuildProcess` is proved to compute exactly these.
 */
module ParseSpec {
  import opened Wrappers
  import opened XmlNode
  import opened Names
  import opened PullParser
  import opened NamespaceScan

  /** The state a `BuildProcess` carries from call to call. */
  datatype State = State(pos: nat, scanNamespaces: bool, root: Option<Node>)

  /** The attribute loop: every attribute of the start tag in index order, by local name and raw value. */
  function CopyAttributes(n: Node, attrs: seq<Attr>): (r: Node)
    ensures r.name == n.name && r.namespaces == n.namespaces && r.children == n.children
    decreases |attrs|
  {
    if attrs == [] then n
    else
      var a := attrs[|attrs| - 1];
      CopyAttributes(n, attrs[..|attrs| - 1]).Attribute(a.name, a.value)
  }

  /**
   * After copying, an attribute is present iff it was before or some copied
   * attribute has that local name; the last attribute with that name wins,
   * and an attribute no copied one names keeps its value.
   */
  lemma {:induction false} CopiedAttributes(n: Node, attrs: seq<Attr>, key: string)
    ensures key in CopyAttributes(n, attrs).attributes <==>
      key in n.attributes || exists i :: 0 <= i < |attrs| && attrs[i].name == key
    ensures forall i :: (0 <= i < |attrs| && attrs[i].name == key &&
      (forall j :: i < j < |attrs| ==> attrs[j].name != key)) ==>
      CopyAttributes(n, attrs).attributes[key] == attrs[i].value
    ensures (forall i :: 0 <= i < |attrs| ==> attrs[i].name != key) && key in n.attributes ==>
      CopyAttributes(n, attrs).attributes[key] == n.attributes[key]
    decreases |attrs|
  {
    if attrs != [] {
      var init := attrs[..|attrs| - 1];
      CopiedAttributes(n, init, key);
      forall i | 0 <= i < |init| && init[i].name == key
        ensures exists i :: 0 <= i < |attrs| && attrs[i].name == key
      {
        assert attrs[i] == init[i];
      }
    }
  }

  /**
   * One call of `parseSubTree(_node)` with the parser at `st.pos`. `hasNode`
   * says whether `_node` is the root accumulator (`root!!`, line 90) rather
   * than null (line 48); attributes and namespace declarations go to that
   * node, or to the root accumulator created on the first call, and are
   * dropped when it is null. The element returned is a fresh node that only
   * receives children.
   */
  function Element(events: seq<Event>, st: State, hasNode: bool): (out: (Result<Node, ParseError>, State))
    requires ValidEvents(events) && st.pos <= |events|
    requires hasNode ==> st.root.Some?
    ensures st.pos <= out.1.pos <= |events|
    ensures out.0.Ok? ==> out.1.pos < |events| && out.1.root.Some? && !out.1.scanNamespaces
    decreases |events| - st.pos, 1
  {
    var ev := At(events, st.pos);
    if !ev.StartTag? then (Err(NotStartTag(ev.Kind())), st)
    else
      var qname := QName(ev.prefix, ev.name);
      Children(events, State(st.pos, false, Some(Enter(st, ev, hasNode))), NewNode(qname), ev.name, ev.namespace)
  }

  /**
   * The root accumulator once an element is entered: created from the
   * element on the first call, then given the namespace declarations and the
   * attributes of the element, when the frame's node is not null.
   */
  function Enter(st: State, ev: Event, hasNode: bool): (r: Node)
    requires ev.StartTag? && ValidTable(ev.depth, ev.table)
    requires hasNode ==> st.root.Some?
    ensures st.root.Some? && !hasNode ==> r == st.root.value
    ensures r.name == (if st.root.Some? then st.root.value.name else QName(ev.prefix, ev.name))
    ensures r.children == (if st.root.Some? then st.root.value.children else [])
  {
    var writes := st.root.None? || hasNode;
    var node := if st.root.None? then Xml(QName(ev.prefix, ev.name), ev.namespace) else st.root.value;
    if writes then CopyAttributes(node.DeclareAll(NamespaceDecls(st.scanNamespaces, ev.depth, ev.table)), ev.attributes)
    else node
  }

  /**
   * One turn of the children loop on a start tag whose element call from
   * `st1` gives `(r, st2)`: an error is passed on as it is, a child is appended and the
   * loop goes on from `st2`.
   */
  lemma ChildrenOnStartTag(events: seq<Event>, st: State, parent: Node, name: string, ns: string,
                           st1: State, r: Result<Node, ParseError>, st2: State)
    requires ValidEvents(events) && st.pos < |events| && st.root.Some? && !st.scanNamespaces
    requires At(events, NextPos(events, st.pos)).StartTag? && st1 == st.(pos := NextPos(events, st.pos))
    requires var out := Element(events, st1, true); out.0 == r && out.1 == st2
    ensures r.Err? ==> Children(events, st, parent, name, ns) == (r, st2)
    ensures r.Ok? ==> st2.pos < |events| && st2.root.Some? && !st2.scanNamespaces
    ensures r.Ok? ==>
      Children(events, st, parent, name, ns) == Children(events, st2, parent.AddNode(r.value), name, ns)
  {
    assert NextPos(events, st.pos) == st.pos + 1;
  }

  /** One turn of the children loop on the text event `t`: the trimmed text is appended and the loop goes on from `st1`. */
  lemma ChildrenOnText(events: seq<Event>, st: State, parent: Node, name: string, ns: string, t: string, st1: State)
    requires ValidEvents(events) && st.pos < |events| && st.root.Some? && !st.scanNamespaces
    requires At(events, NextPos(events, st.pos)) == Text(t) && st1 == st.(pos := NextPos(events, st.pos))
    ensures Children(events, st, parent, name, ns) == Children(events, st1, parent.Text(Trim(t)), name, ns)
  {
  }

  /** The loop fails with the event's type on any event other than a start tag, a text or an end tag. */
  lemma ChildrenOnOther(events: seq<Event>, st: State, parent: Node, name: string, ns: string)
    requires ValidEvents(events) && st.pos < |events| && st.root.Some? && !st.scanNamespaces
    requires At(events, NextPos(events, st.pos)).Other?
    ensures Children(events, st, parent, name, ns) ==
      (Err(UnexpectedEvent(At(events, NextPos(events, st.pos)).kind)), st.(pos := NextPos(events, st.pos)))
  {
  }

  /**
   * The loop ends on the first end tag; it returns `parent` when that tag
   * has the element's namespace and local name, and fails otherwise.
   */
  lemma ChildrenOnEndTag(events: seq<Event>, st: State, parent: Node, name: string, ns: string)
    requires ValidEvents(events) && st.pos < |events| && st.root.Some? && !st.scanNamespaces
    requires At(events, NextPos(events, st.pos)).EndTag?
    ensures var ev := At(events, NextPos(events, st.pos)); var st1 := st.(pos := NextPos(events, st.pos));
      Children(events, st, parent, name, ns) ==
        if ev.namespace == ns && ev.name == name then (Ok(parent), st1) else (Err(MismatchedEndTag(ns, name)), st1)
  {
  }

  /**
   * The children loop: `next()`, then an element child by recursion, a
   * trimmed text child, an error for any other event, until an end tag,
   * which must close the element (`require(END_TAG, ns, name)`).
   */
  function Children(events: seq<Event>, st: State, parent: Node, name: string, ns: string): (out: (Result<Node, ParseError>, State))
    requires ValidEvents(events) && st.pos < |events| && st.root.Some? && !st.scanNamespaces
    ensures st.pos < out.1.pos <= |events|
    ensures out.0.Ok? ==> out.1.pos < |events| && out.1.root.Some? && !out.1.scanNamespaces
    decreases |events| - st.pos, 0
  {
    var p := NextPos(events, st.pos);
    var st1 := st.(pos := p);
    match At(events, p)
    case EndTag(n, s) =>
      if s == ns && n == name then (Ok(parent), st1) else (Err(MismatchedEndTag(ns, name)), st1)
    case StartTag(_, _, _, _, _, _) =>
      var (r, st2) := Element(events, st1, true);
      if r.Err? then (r, st2) else Children(events, st2, parent.AddNode(r.value), name, ns)
    case Text(t) =>
      Children(events, st1, parent.Text(Trim(t)), name, ns)
    case Other(k) =>
      (Err(UnexpectedEvent(k)), st1)
  }

  /**
   * What one call of `parseSubTree(_node)` promises: it fails on entry unless
   * the parser is on a START_TAG, and then changes nothing; the root
   * accumulator is created once, by the first call, named by that element's
   * qualified name, and later calls keep its name and children; a result
   * comes with the parser on the matching END_TAG and is named by the
   * qualified name, without attributes or namespace declarations.
   */
  lemma {:induction false} ElementFacts(events: seq<Event>, st: State, hasNode: bool)
    requires ValidEvents(events) && st.pos <= |events|
    requires hasNode ==> st.root.Some?
    ensures var out := Element(events, st, hasNode); var ev := At(events, st.pos);
      (!ev.StartTag? ==> out == (Err(NotStartTag(ev.Kind())), st)) &&
      (ev.StartTag? ==> out.1.root.Some? && !out.1.scanNamespaces) &&
      (ev.StartTag? && st.root.None? ==>
        out.1.root.value.name == QName(ev.prefix, ev.name) && out.1.root.value.children == []) &&
      (st.root.Some? ==>
        out.1.root.Some? && out.1.root.value.name == st.root.value.name &&
        out.1.root.value.children == st.root.value.children) &&
      (out.0.Ok? ==>
        events[out.1.pos] == EndTag(ev.name, ev.namespace) &&
        out.0.value.name == QName(ev.prefix, ev.name) &&
        out.0.value.attributes == map[] && out.0.value.namespaces == [])
    decreases |events| - st.pos, 1
  {
    var ev := At(events, st.pos);
    if ev.StartTag? {
      var st1 := State(st.pos, false, Some(Enter(st, ev, hasNode)));
      ChildrenFacts(events, st1, NewNode(QName(ev.prefix, ev.name)), ev.name, ev.namespace);
    }
  }

  /**
   * What the children loop promises: it keeps the root accumulator's name and
   * children, and a result is `parent` grown by children only, with the
   * parser on an END_TAG of the element's namespace and local name.
   */
  lemma {:induction false} ChildrenFacts(events: seq<Event>, st: State, parent: Node, name: string, ns: string)
    requires ValidEvents(events) && st.pos < |events| && st.root.Some? && !st.scanNamespaces
    ensures var out := Children(events, st, parent, name, ns);
      out.1.root.Some? && !out.1.scanNamespaces &&
      out.1.root.value.name == st.root.value.name && out.1.root.value.children == st.root.value.children &&
      (out.0.Ok? ==>
        events[out.1.pos] == EndTag(name, ns) &&
        out.0.value.name == parent.name && out.0.value.attributes == parent.attributes &&
        out.0.value.namespaces == parent.namespaces)
    decreases |events| - st.pos, 0
  {
    var p := NextPos(events, st.pos);
    var st1 := st.(pos := p);
    match At(events, p)
    case EndTag(_, _) =>
    case StartTag(_, _, _, _, _, _) =>
      ElementFacts(events, st1, true);
      var (r, st2) := Element(events, st1, true);
      if r.Ok? {
        ChildrenFacts(events, st2, parent.AddNode(r.value), name, ns);
      }
    case Text(t) =>
      ChildrenFacts(events, st1, parent.Text(Trim(t)), name, ns);
    case Other(_) =>
  }
}
