# NodeXmlPullBuilder: the pull-parser driver of kotlin-xml-builder

This project models `NodeXmlPullBuilder` and its inner class `BuildProcess`,
which rebuild a kotlin-xml-builder `Node` tree from the events of a
namespace-aware XmlPullParser:

- `parseSubTree(pp)` on the builder;
- the two `parseSubTree` overloads of the process;
- `declareNamespaces` and `declareOneNamespace`;
- the process state: the parser, the `scanNamespaces` flag and the root
  accumulator `root`.

The model is written in Dafny.

Modules, in dependency order:

- `Wrappers`: `Option` and `Result`.
- `XmlNode`: the part of `Node` the driver calls. It has a name, attributes
  (`xmlns` is the attribute "xmlns"), namespace declarations in call order,
  and element and text children.
- `PullParser`: the parser collaborator as a class. It holds a fixed sequence
  of events and a position. A start tag carries what the parser exposes while
  it sits on it: name, namespace, prefix, attributes, depth, and the namespace
  table with its per-depth counts.
- `Names`: the qualified element name `QName` (NodeXmlPullBuilder.kt line
  57), the declaration name `DeclName` (`xmlns` / `xmlns:prefix`, line 134),
  and the trimming of text events `Trim` (line 95).
- `NamespaceScan`: which table entries `declareNamespaces` declares, as
  functions, with the properties of the de-duplicating full scan. `Decl` is
  the declaration one entry makes (line 134). `ScanDecls` is the full scan of
  the first element (lines 111-122), and `DeltaDecls` the entries added at the
  current depth (lines 124-126). `NamespaceDecls` chooses between the two as
  `declareNamespaces` does (lines 106-128).
- `ParseSpec`: one call of `parseSubTree(_node)` as a function of the events
  and of the process state (position, `scanNamespaces`, root accumulator).
- `PullBuilder`: the class `BuildProcess` with those fields. Its methods keep
  the source's loops: the children loop, the attribute loop, the
  `downTo`/`until` namespace loops and the inner duplicate-prefix loop. Each
  method is proved to compute exactly what `ParseSpec` describes.
- `Documents`: well-formed element trees and the event sequences the parser
  reports for them. It defines, independently of the parse, the tree the
  driver returns (`Shape`) and the root accumulator it builds (`First`,
  `Collect`). It proves that the parse of any such event sequence produces
  both.
- `SampleDocument`: the document of the repository's `parseAndVerify` test,
  worked through the model.

The nullable `_node` parameter is modelled as a flag. The flag says whether
`_node` is the root accumulator (`root!!`, passed by every recursive call) or
null (the first call). The root accumulator is the one node that is updated
across calls. Because `node` is only ever `root` or null, updating it in place
is modelled by reassigning the field `root`. An exception
(`XmlPullParserException` from `require` or from an unexpected event) is an
`Err` result. The state is then left as it was when the exception was thrown.

What the driver returns is worth stating plainly, because the model proves it.

- Attributes and namespace declarations (lines 69-76) go to `node`, which is
  always the root accumulator or null.
- The element that `parseSubTree` returns (`parent`, line 64) only ever
  receives children, and the line giving it `xmlns` (65) is commented out.

So the returned tree has no attribute, no namespace declaration and no
`xmlns` at any level. `ParseSpec.ElementFacts` proves this of every call's
result: the result has the qualified name and no attributes or declarations.
`Documents.ShapeIsBare` proves it at every level of the tree that
`Documents.ParseDocument` shows is returned. The accumulator, which the
caller never sees, is created by the first element with that element's
`xmlns`. It then collects:

- the full namespace scan and the first element's attributes;
- the new declarations and the attributes of every nested element, in
  document order.

`Documents.ParseDocument` proves the returned tree and this collection for
every well-formed document. `Documents.DocumentXmlns` proves the `xmlns`
facts, for documents where no start tag reports an attribute named "xmlns"
(`Documents.NoXmlnsAttribute`).

The converse also holds. A call succeeds only on the events of a well-formed
element, and then it returns that element's `Shape` (`Documents.ParsedElement`,
`Documents.ParseSucceedsIff`). Every other input ends in one of the driver's
three exceptions: the call is not on a START_TAG, an unexpected event occurs
inside an element, or an end tag does not close the element it is in.

The repository's `parseAndVerify` test (XmlBuilderTest.kt, lines 355-372)
checks that `root.xmlns` is the document's namespace. That test calls a
top-level `parse`, which is not part of this model. `SampleDocument.ParseAndVerify`
shows that `BuildProcess` on the same document returns `root` with child
`child` and text `value`, as the test expects, but without `xmlns`. The
namespace is on the accumulator. The driver is modelled as written.

## Model

| member | source | states |
|---|---|---|
| Names.QNameSplit | kotlin-xml-builder/src/main/kotlin/org/redundent/kotlin/xml/NodeXmlPullBuilder.kt:54-57 | without a prefix the qualified name is the local name; with colon-free parts, splitting "prefix:name" at its first ':' gives back the prefix and the local name |
| Names.QNameInjective | kotlin-xml-builder/src/main/kotlin/org/redundent/kotlin/xml/NodeXmlPullBuilder.kt:57 | two colon-free (prefix, name) pairs with the same qualified name are equal |
| Names.DeclNameForm | kotlin-xml-builder/src/main/kotlin/org/redundent/kotlin/xml/NodeXmlPullBuilder.kt:132-134 | a declaration name starts with "xmlns"; it is exactly "xmlns" iff the prefix is null, and otherwise "xmlns:" followed by the prefix |
| Names.DeclNameInjective | kotlin-xml-builder/src/main/kotlin/org/redundent/kotlin/xml/NodeXmlPullBuilder.kt:134 | different prefixes (null included) never get the same declaration name |
| Names.Trim | kotlin-xml-builder/src/main/kotlin/org/redundent/kotlin/xml/NodeXmlPullBuilder.kt:95 | the trimmed text is a slice with only trimmed characters (Kotlin whitespace, '\r', '\n') before and after it, and one not starting or ending with such a character |
| Names.TrimUnique | kotlin-xml-builder/src/main/kotlin/org/redundent/kotlin/xml/NodeXmlPullBuilder.kt:95 | any slice that is a trimmed form of the text is the result of the trim, so the trim is determined by that property |
| Names.TrimIdempotent | kotlin-xml-builder/src/main/kotlin/org/redundent/kotlin/xml/NodeXmlPullBuilder.kt:95 | trimming twice is trimming once |
| XmlNode.Node.Attribute | kotlin-xml-builder/src/main/kotlin/org/redundent/kotlin/xml/NodeXmlPullBuilder.kt:76 | setting an attribute updates that key of the attribute map and leaves name, declarations and children alone |
| XmlNode.Node.Namespace | kotlin-xml-builder/src/main/kotlin/org/redundent/kotlin/xml/NodeXmlPullBuilder.kt:135 | a declaration is appended to the node's declarations; nothing else changes |
| XmlNode.Node.AddNode | kotlin-xml-builder/src/main/kotlin/org/redundent/kotlin/xml/NodeXmlPullBuilder.kt:91 | an element child is appended; nothing else changes |
| XmlNode.Node.Text | kotlin-xml-builder/src/main/kotlin/org/redundent/kotlin/xml/NodeXmlPullBuilder.kt:95 | a text child is appended; nothing else changes |
| XmlNode.Node.DeclareAll | kotlin-xml-builder/src/main/kotlin/org/redundent/kotlin/xml/NodeXmlPullBuilder.kt:111-126 | declarations made one after the other end up in that order after the existing ones; nothing else changes |
| XmlNode.Xml | kotlin-xml-builder/src/main/kotlin/org/redundent/kotlin/xml/NodeXmlPullBuilder.kt:59-61 | the accumulator is created with the qualified name, `xmlns` set to the element's namespace and no other attribute, no declarations and no children |
| XmlNode.NewNode | kotlin-xml-builder/src/main/kotlin/org/redundent/kotlin/xml/NodeXmlPullBuilder.kt:64 | the returned element starts with the qualified name and nothing else |
| XmlNode.DeclaredOnIsDeclareAll | kotlin-xml-builder/src/main/kotlin/org/redundent/kotlin/xml/NodeXmlPullBuilder.kt:111-126 | a node that differs from another only by appended declarations is that node with those declarations made |
| PullParser.Parser.Next | kotlin-xml-builder/src/main/kotlin/org/redundent/kotlin/xml/NodeXmlPullBuilder.kt:88 | `next()` moves one event on, never past the end, and returns the type of the event it lands on |
| NamespaceScan.Scanned | kotlin-xml-builder/src/main/kotlin/org/redundent/kotlin/xml/NodeXmlPullBuilder.kt:111-122 | the full scan only declares indices in its range |
| NamespaceScan.ScannedDescending | kotlin-xml-builder/src/main/kotlin/org/redundent/kotlin/xml/NodeXmlPullBuilder.kt:111 | the full scan declares from the top of the table down: each declared index is below every earlier one |
| NamespaceScan.ScanDeclsAreScanned | kotlin-xml-builder/src/main/kotlin/org/redundent/kotlin/xml/NodeXmlPullBuilder.kt:111-122 | the declarations of the full scan are exactly those of the entries it keeps, in scan order |
| NamespaceScan.ScanDeclsStep | kotlin-xml-builder/src/main/kotlin/org/redundent/kotlin/xml/NodeXmlPullBuilder.kt:114-121 | one turn of the outer scan loop: a shadowed entry adds nothing (`continue@LOOP`), any other entry adds its declaration after the earlier ones |
| NamespaceScan.ScannedMembers | kotlin-xml-builder/src/main/kotlin/org/redundent/kotlin/xml/NodeXmlPullBuilder.kt:111-122 | an index is declared by the full scan iff it is in range and no later entry below the top has its (non-null) prefix |
| NamespaceScan.DefaultsKept | kotlin-xml-builder/src/main/kotlin/org/redundent/kotlin/xml/NodeXmlPullBuilder.kt:116 | entries with a null prefix (default namespace) are never skipped, even when repeated |
| NamespaceScan.LatestBindingWins | kotlin-xml-builder/src/main/kotlin/org/redundent/kotlin/xml/NodeXmlPullBuilder.kt:111-122 | a prefix is declared only by its latest (highest-index) binding, and that binding is declared whenever it is in range |
| NamespaceScan.DeclaredNamesUnique | kotlin-xml-builder/src/main/kotlin/org/redundent/kotlin/xml/NodeXmlPullBuilder.kt:109-122 | the full scan never makes two declarations with the same name, except "xmlns" for the default namespace |
| NamespaceScan.DeltaDeclsAt | kotlin-xml-builder/src/main/kotlin/org/redundent/kotlin/xml/NodeXmlPullBuilder.kt:124-126 | a nested element declares every entry of `[count(depth-1), count(depth))` once, in table order, and nothing when the range is empty |
| ParseSpec.CopyAttributes | kotlin-xml-builder/src/main/kotlin/org/redundent/kotlin/xml/NodeXmlPullBuilder.kt:72-76 | copying attributes changes only the attribute map |
| ParseSpec.CopiedAttributes | kotlin-xml-builder/src/main/kotlin/org/redundent/kotlin/xml/NodeXmlPullBuilder.kt:72-76 | after the attribute loop a key is present iff it was before or some attribute has that local name; the last such attribute's raw value wins; other keys keep their values |
| ParseSpec.Element | kotlin-xml-builder/src/main/kotlin/org/redundent/kotlin/xml/NodeXmlPullBuilder.kt:51-103 | one call never moves the parser backwards or past the end; a success leaves it on an event, with the accumulator created and the full scan done |
| ParseSpec.Enter | kotlin-xml-builder/src/main/kotlin/org/redundent/kotlin/xml/NodeXmlPullBuilder.kt:58-76 | entering an element with a null `_node` after the first call leaves the accumulator alone; the accumulator's name and children are those of the first element (its qualified name, none) |
| ParseSpec.Children | kotlin-xml-builder/src/main/kotlin/org/redundent/kotlin/xml/NodeXmlPullBuilder.kt:88-102 | every turn of the children loop moves the parser on; a success leaves it on an event, with the accumulator present |
| ParseSpec.ChildrenOnStartTag | kotlin-xml-builder/src/main/kotlin/org/redundent/kotlin/xml/NodeXmlPullBuilder.kt:89-92 | on a start tag the loop parses the child element with the accumulator as `_node`; an error of that call is the loop's error, with the state the call left; a node is appended and the loop goes on from where the child stopped |
| ParseSpec.ChildrenOnText | kotlin-xml-builder/src/main/kotlin/org/redundent/kotlin/xml/NodeXmlPullBuilder.kt:93-95 | on a text event the loop appends the trimmed text and goes on from the next event |
| ParseSpec.ChildrenOnOther | kotlin-xml-builder/src/main/kotlin/org/redundent/kotlin/xml/NodeXmlPullBuilder.kt:96-98 | any other event inside an element fails with that event's type, the parser on that event |
| ParseSpec.ChildrenOnEndTag | kotlin-xml-builder/src/main/kotlin/org/redundent/kotlin/xml/NodeXmlPullBuilder.kt:101-102 | an end tag stops the loop: it returns `parent` when the tag has the element's namespace and name, and fails on any other end tag, the parser on that tag |
| ParseSpec.ElementFacts | kotlin-xml-builder/src/main/kotlin/org/redundent/kotlin/xml/NodeXmlPullBuilder.kt:51-103 | a call fails unchanged unless on a START_TAG; the accumulator is created once, by the first call, named by its element, and later calls keep its name and children; a result comes with the parser on the matching END_TAG, is named by the qualified name and has no attributes or declarations |
| ParseSpec.ChildrenFacts | kotlin-xml-builder/src/main/kotlin/org/redundent/kotlin/xml/NodeXmlPullBuilder.kt:88-102 | the children loop keeps the accumulator's name and children; a result is `parent` grown by children only, with the parser on an END_TAG of the element's namespace and local name |
| PullBuilder.BuildProcess.constructor | kotlin-xml-builder/src/main/kotlin/org/redundent/kotlin/xml/NodeXmlPullBuilder.kt:40-44 | a new process has no parser, `scanNamespaces` set and no accumulator |
| PullBuilder.BuildProcess.ParseSubTree | kotlin-xml-builder/src/main/kotlin/org/redundent/kotlin/xml/NodeXmlPullBuilder.kt:46-49 | remembers the parser, then its result and new state are those of `ParseSpec.Element` with a null `_node` |
| PullBuilder.BuildProcess.ParseSubTreeNode | kotlin-xml-builder/src/main/kotlin/org/redundent/kotlin/xml/NodeXmlPullBuilder.kt:51-103 | the recursive method with its children loop computes exactly the result, parser position, flag and accumulator of `ParseSpec.Element` |
| PullBuilder.BuildProcess.EnterElement | kotlin-xml-builder/src/main/kotlin/org/redundent/kotlin/xml/NodeXmlPullBuilder.kt:52-85 | creating the accumulator on the first call, declaring namespaces and copying attributes leaves the accumulator as `ParseSpec.Enter` says and the full scan done |
| PullBuilder.BuildProcess.DeclareNamespaces | kotlin-xml-builder/src/main/kotlin/org/redundent/kotlin/xml/NodeXmlPullBuilder.kt:106-128 | clears `scanNamespaces`; declares on the accumulator the full scan the first time and the current depth's new entries afterwards, and nothing when `_node` is null |
| PullBuilder.BuildProcess.DeclareInScope | kotlin-xml-builder/src/main/kotlin/org/redundent/kotlin/xml/NodeXmlPullBuilder.kt:107-122 | the nested `downTo` loops declare exactly the de-duplicated full scan, in order |
| PullBuilder.BuildProcess.DeclareAtDepth | kotlin-xml-builder/src/main/kotlin/org/redundent/kotlin/xml/NodeXmlPullBuilder.kt:123-127 | the `until` loop declares exactly the entries `[count(depth-1), count(depth))`, in order |
| PullBuilder.BuildProcess.DeclareOneNamespace | kotlin-xml-builder/src/main/kotlin/org/redundent/kotlin/xml/NodeXmlPullBuilder.kt:131-136 | entry `i` is declared on the accumulator under its declaration name with its URI, or nothing happens when `_node` is null |
| PullBuilder.ParseSubTree | kotlin-xml-builder/src/main/kotlin/org/redundent/kotlin/xml/NodeXmlPullBuilder.kt:35-38 | a fresh process parses from the parser's current event: result and final parser position are those of a first call |
| Documents.ParseDocument | kotlin-xml-builder/src/main/kotlin/org/redundent/kotlin/xml/NodeXmlPullBuilder.kt:35-103 | for every well-formed element tree, the first call returns its `Shape`, leaves the parser on its end tag, and leaves the accumulator created by the first element and visited by every nested element in document order |
| Documents.ParseElement | kotlin-xml-builder/src/main/kotlin/org/redundent/kotlin/xml/NodeXmlPullBuilder.kt:89-92 | a nested element's call, with the accumulator as `_node`, returns the element's `Shape`, stops on its end tag and visits it on the accumulator |
| Documents.ParseContent | kotlin-xml-builder/src/main/kotlin/org/redundent/kotlin/xml/NodeXmlPullBuilder.kt:88-102 | the children loop turns every content item into a child, element or trimmed text, in order, and stops on the element's own end tag |
| Documents.ShapeIsBare | kotlin-xml-builder/src/main/kotlin/org/redundent/kotlin/xml/NodeXmlPullBuilder.kt:64-65 | the returned tree has no attributes and no declarations at any level, so no `xmlns` |
| Documents.CollectKeepsXmlns | kotlin-xml-builder/src/main/kotlin/org/redundent/kotlin/xml/NodeXmlPullBuilder.kt:69-76 | nested elements never change the accumulator's `xmlns` when no attribute is named "xmlns" |
| Documents.FirstKeepsXmlns | kotlin-xml-builder/src/main/kotlin/org/redundent/kotlin/xml/NodeXmlPullBuilder.kt:58-63 | when no start tag has an attribute with the local name "xmlns" (`NoXmlnsAttribute`), the accumulator of a whole document keeps the first element's namespace as `xmlns` |
| Documents.DocumentXmlns | kotlin-xml-builder/src/main/kotlin/org/redundent/kotlin/xml/NodeXmlPullBuilder.kt:58-65 | when no start tag has an attribute with the local name "xmlns" (`NoXmlnsAttribute`), the parse of a document returns an element named by the qualified name without `xmlns`, while the accumulator has the same name and the element's namespace as `xmlns` |
| Documents.FirstXmlnsAttribute | kotlin-xml-builder/src/main/kotlin/org/redundent/kotlin/xml/NodeXmlPullBuilder.kt:72-76 | when the first element has attributes with the local name "xmlns", the last one's value replaces the element's namespace as the accumulator's `xmlns` |
| Documents.ParsedElement | kotlin-xml-builder/src/main/kotlin/org/redundent/kotlin/xml/NodeXmlPullBuilder.kt:51-103 | a call succeeds only on the events of a well-formed element: the result is that element's `Shape`, and the parser is on its end tag |
| Documents.ParsedChildren | kotlin-xml-builder/src/main/kotlin/org/redundent/kotlin/xml/NodeXmlPullBuilder.kt:88-102 | `ChildrenParsed`: the children loop succeeds only on well-formed items followed by the element's own end tag: the result is `parent` grown by the items' children, in order, and the parser is on that end tag |
| Documents.ParseSucceedsIff | kotlin-xml-builder/src/main/kotlin/org/redundent/kotlin/xml/NodeXmlPullBuilder.kt:35-38 | a fresh process parses successfully from a position iff the events from there on begin with those of a well-formed element |
| SampleDocument.ParseAndVerify | kotlin-xml-builder/src/test/kotlin/org/redundent/kotlin/xml/XmlBuilderTest.kt:355-372 | on the test's document the driver returns `root` with one element child `child` holding the text `value`, but no `xmlns`; the accumulator has `xmlns` and one "xmlns" declaration |
| SampleDocument.PrefixedXmlnsAttribute | kotlin-xml-builder/src/main/kotlin/org/redundent/kotlin/xml/NodeXmlPullBuilder.kt:58-76 | for `<root xmlns="urn:x" xmlns:a="urn:a" a:xmlns="v"/>` the parse returns an element without `xmlns`, and the accumulator's `xmlns` is "v", not the namespace "urn:x" |

## Left out

- `newParser` and `parse(reader)` (lines 17-30) are not modelled. They create the parser through a factory, set its input and advance it once; the model starts from a parser already on its first event.
- The XmlPullParser itself (tokenising, well-formedness checks, namespace processing) is not modelled. It is a collaborator, given as the sequence of events it reports and the namespace table on each start tag.
- `IOException` and parser exceptions raised inside `next()` are not modelled. Only the exceptions the driver raises itself are: both `require` calls and the unexpected-event case.
- The message text of the unexpected-event exception (built from `XmlPullParser.TYPES`) is left out. The error carries the event type instead.
- The `===` test in the duplicate-prefix check (line 116) is not modelled separately. Identity of two non-null strings implies their equality, so the condition reduces to `prefix != null && prefix == prefixJ`.
- The attribute namespace (line 73) is read but, as in the source, not used.
- `Node` beyond `attribute`, `namespace`, `addNode`, `text` and `xmlns` is not modelled: its serialisation and the rest of its builder API are outside the driver.
- In-place updates of the accumulator are modelled by reassigning the `root` field with a new value. No other reference to that node exists while the process runs, so aliasing is not captured.
- The `!!` assertions of the source are not modelled as failures. `pp` is set before any call, `root` is set before any recursive call, and `parent` is never null, so none of them can fail.
- Kotlin's `Char.isWhitespace` is modelled by its code-point table. That table covers Java's `isWhitespace` and `isSpaceChar`, without Unicode version differences.
- Documents.DocumentXmlns (and `FirstKeepsXmlns`, `CollectKeepsXmlns`): proved only for documents where no start tag reports an attribute with the local name "xmlns" (`NoXmlnsAttribute`). Real parsers do report such attributes in two cases. One is a prefixed attribute such as `a:xmlns="v"`, which is legal namespaced XML. The other is a bare `xmlns="…"` from a parser that does not process namespaces; `parseSubTree(pp)` (lines 35-38) accepts such a parser, and only `parse(reader)` turns namespace processing on (line 26). On those inputs the attribute loop (line 76) copies the attribute by local name over the accumulator's `xmlns`, so the last such attribute's value wins. The model computes this through `ParseDocument` and `ParseSpec.CopiedAttributes`: `Documents.FirstXmlnsAttribute` states it for the first element, and `SampleDocument.PrefixedXmlnsAttribute` works through `<root xmlns="urn:x" xmlns:a="urn:a" a:xmlns="v"/>`.
