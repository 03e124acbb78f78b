/**
 * The XmlPullParser collaborator, reduced to what the driver reads from it.
 *
 * The input is the sequence of events the parser would report from its current
 * position on. A START_TAG event carries what the parser exposes while it sits on
 * that tag: name, namespace URI, prefix, attributes, nesting depth and the
 * namespace table (all in-scope declarations, with the cumulative count of
 * declarations per depth, `getNamespaceCount(d)`).
 */
module PullParser {
  import opened Wrappers

  // Event type codes of XmlPullParser.
  const END_DOCUMENT: int := 1
  const START_TAG: int := 2
  const END_TAG: int := 3
  const TEXT: int := 4

  datatype Attr = Attr(namespace: string, name: string, value: string)

  /** One namespace table entry: `getNamespacePrefix(i)` (null for the default namespace) and `getNamespaceUri(i)`. */
  datatype NsEntry = NsEntry(prefix: Option<string>, uri: string)

  /** `counts[d]` is `getNamespaceCount(d)` for `d` from 0 to the current depth. */
  datatype NamespaceTable = NamespaceTable(entries: seq<NsEntry>, counts: seq<nat>)

  datatype Event =
    | StartTag(name: string, namespace: string, prefix: Option<string>,
               attributes: seq<Attr>, depth: nat, table: NamespaceTable)
    | EndTag(name: string, namespace: string)
    | Text(text: string)
    | Other(kind: int)
  {
    /** `getEventType()`. */
    function Kind(): (k: int)
      ensures ValidEvent(this) ==> (StartTag? <==> k == START_TAG) && (EndTag? <==> k == END_TAG) && (Text? <==> k == TEXT)
    {
      match this
      case StartTag(_, _, _, _, _, _) => START_TAG
      case EndTag(_, _) => END_TAG
      case Text(_) => TEXT
      case Other(k) => k
    }
  }

  /** What the parser guarantees of its namespace table on a start tag: a depth of at least 1 and counts within the table. */
  predicate ValidTable(depth: nat, t: NamespaceTable) {
    1 <= depth && |t.counts| == depth + 1 &&
    forall d :: 0 <= d < |t.counts| ==> t.counts[d] <= |t.entries|
  }

  /** Other events are none of START_TAG, END_TAG and TEXT. */
  predicate ValidEvent(e: Event) {
    match e
    case StartTag(_, _, _, _, depth, table) => ValidTable(depth, table)
    case Other(k) => k != START_TAG && k != END_TAG && k != TEXT
    case _ => true
  }

  predicate ValidEvents(events: seq<Event>) {
    forall i :: 0 <= i < |events| ==> ValidEvent(events[i])
  }

  /** The event at position `pos`; past the last event the parser reports END_DOCUMENT. */
  function At(events: seq<Event>, pos: nat): (e: Event)
    ensures ValidEvents(events) ==> ValidEvent(e)
  {
    if pos < |events| then events[pos] else Other(END_DOCUMENT)
  }

  /** The position after `next()`: one further on, but never past the end of the input. */
  function NextPos(events: seq<Event>, pos: nat): (p: nat)
    requires pos <= |events|
    ensures p <= |events| && (pos < |events| ==> p == pos + 1) && (pos == |events| ==> p == pos)
  {
    if pos < |events| then pos + 1 else pos
  }

  /** The XmlPullParserException cases the driver raises. */
  datatype ParseError =
    | NotStartTag(kind: int)                               // require(START_TAG, null, null) failed
    | UnexpectedEvent(kind: int)                           // "unexpected event ..."
    | MismatchedEndTag(namespace: string, name: string)    // require(END_TAG, ns, name) failed

  class Parser {
    const events: seq<Event>
    var pos: nat

    ghost predicate Valid()
      reads this
    {
      pos <= |events| && ValidEvents(events)
    }

    constructor (input: seq<Event>)
      requires ValidEvents(input)
      ensures Valid() && events == input && pos == 0
    {
      events := input;
      pos := 0;
    }

    function Current(): (e: Event)
      reads this
      ensures e == At(events, pos)
    {
      At(events, pos)
    }

    /** `require(type, namespace, name)`: the current event has that type, and that namespace and name where they are given. */
    predicate Require(kind: int, namespace: Option<string>, name: Option<string>)
      reads this
    {
      var e := Current();
      e.Kind() == kind &&
      (namespace.Some? ==> (e.StartTag? || e.EndTag?) && e.namespace == namespace.value) &&
      (name.Some? ==> (e.StartTag? || e.EndTag?) && e.name == name.value)
    }

    function Depth(): (d: nat)
      reads this
      requires Current().StartTag?
    {
      Current().depth
    }

    function NamespaceCount(d: int): (n: nat)
      reads this
      requires Valid() && Current().StartTag? && 0 <= d <= Depth()
      ensures n <= |Current().table.entries|
    {
      Current().table.counts[d]
    }

    function NamespacePrefix(i: int): (p: Option<string>)
      reads this
      requires Current().StartTag? && 0 <= i < |Current().table.entries|
    {
      Current().table.entries[i].prefix
    }

    function NamespaceUri(i: int): (uri: string)
      reads this
      requires Current().StartTag? && 0 <= i < |Current().table.entries|
    {
      Current().table.entries[i].uri
    }

    /** `next()`: advances to the next event and returns its type. */
    method Next() returns (kind: int)
      requires Valid()
      modifies this
      ensures Valid() && pos == NextPos(events, old(pos)) && kind == Current().Kind()
    {
      pos := NextPos(events, pos);
      kind := Current().Kind();
    }
  }
}
