/**
 * `NodeXmlPullBuilder` and its inner class `BuildProcess`
 * (NodeXmlPullBuilder.kt, lines 34-139): the recursive driver that rebuilds
 * a `Node` tree from the pull parser's events, proved to compute what
 * `ParseSpec.Element` and `ParseSpec.Children` describe.
 */
module PullBuilder {
  import opened Wrappers
  import opened XmlNode
  import opened Names
  import opened PullParser
  import opened NamespaceScan
  import opened ParseSpec

  class BuildProcess {
    var pp: Parser?
    var scanNamespaces: bool
    var root: Option<Node>

    constructor ()
      ensures pp == null && scanNamespaces && root == None
    {
      pp := null;
      scanNamespaces := true;
      root := None;
    }

    /** The process state as `ParseSpec` sees it. */
    ghost function Snapshot(): (s: State)
      reads this, pp
      requires pp != null
    {
      State(pp.pos, scanNamespaces, root)
    }

    /** `parseSubTree(pp)`: remembers the parser and parses from it with a null `_node`. */
    method ParseSubTree(p: Parser) returns (r: Result<Node, ParseError>)
      requires p.Valid()
      modifies this, p
      ensures pp == p && p.Valid()
      ensures (r, Snapshot()) == Element(p.events, State(old(p.pos), old(scanNamespaces), old(root)), false)
    {
      pp := p;
      r := ParseSubTreeNode(false);
    }

    /**
     * `parseSubTree(_node)`, with `hasNode` telling whether `_node` is the
     * root accumulator (`root!!`) or null. An exception of the source is an
     * `Err` result here; the state is then left as it was when it was thrown.
     */
    method ParseSubTreeNode(hasNode: bool) returns (r: Result<Node, ParseError>)
      requires pp != null && pp.Valid()
      requires hasNode ==> root.Some?
      modifies this, pp
      ensures pp == old(pp) && pp.Valid()
      ensures (r, Snapshot()) == Element(pp.events, old(Snapshot()), hasNode)
      decreases |pp.events| - pp.pos
    {
      if !pp.Require(START_TAG, None, None) {
        return Err(NotStartTag(pp.Current().Kind()));
      }
      ghost var st0 := Snapshot();
      var ev := pp.Current();
      var name, ns, prefix := ev.name, ev.namespace, ev.prefix;
      var qname := QName(prefix, name);
      EnterElement(hasNode);
      var parent := NewNode(qname);
      ghost var goal := Children(pp.events, Snapshot(), parent, name, ns);
      assert goal == Element(pp.events, st0, hasNode);
      ghost var prev: nat := pp.pos;
      var kind := pp.Next();
      while kind != END_TAG
        invariant pp == old(pp) && pp.Valid()
        invariant prev < |pp.events| && pp.pos == NextPos(pp.events, prev)
        invariant kind == pp.Current().Kind()
        invariant root.Some? && !scanNamespaces
        invariant Children(pp.events, State(prev, false, root), parent, name, ns) == goal
        decreases |pp.events| - pp.pos
      {
        ghost var st := State(prev, false, root);
        if kind == START_TAG {
          ghost var st1 := Snapshot();
          assert st1 == st.(pos := NextPos(pp.events, prev));
          var el := ParseSubTreeNode(true);
          ChildrenOnStartTag(pp.events, st, parent, name, ns, st1, el, Snapshot());
          if el.Err? {
            return el;
          }
          parent := parent.AddNode(el.value);
        } else if kind == TEXT {
          var text := pp.Current().text;
          ChildrenOnText(pp.events, st, parent, name, ns, text, st.(pos := NextPos(pp.events, prev)));
          parent := parent.Text(Trim(text));
        } else {
          return Err(UnexpectedEvent(kind));
        }
        prev := pp.pos;
        kind := pp.Next();
      }
      if !pp.Require(END_TAG, Some(ns), Some(name)) {
        return Err(MismatchedEndTag(ns, name));
      }
      return Ok(parent);
    }

    /**
     * The part of `parseSubTree(_node)` before the children loop: the root
     * accumulator is created on the first call and becomes the target then;
     * the namespace declarations and the attributes of the start tag go to the
     * target, or nowhere when it is null.
     */
    method EnterElement(hasNode: bool)
      requires pp != null && pp.Valid() && pp.Current().StartTag?
      requires hasNode ==> root.Some?
      modifies this`root, this`scanNamespaces
      ensures root == Some(Enter(old(Snapshot()), pp.Current(), hasNode)) && !scanNamespaces
    {
      ghost var st0 := Snapshot();
      var ev := pp.Current();
      var hasTarget := hasNode;
      if root.None? {
        root := Some(Xml(QName(ev.prefix, ev.name), ev.namespace));
        hasTarget := true;
      }
      ghost var created := root;

      DeclareNamespaces(hasTarget);
      ghost var declared := root;

      var attrs := ev.attributes;
      for i := 0 to |attrs|
        modifies this`root
        invariant root == if hasTarget then Some(CopyAttributes(declared.value, attrs[..i])) else declared
      {
        // the attribute's namespace is read but not used
        var attrNs, attrName, attrValue := attrs[i].namespace, attrs[i].name, attrs[i].value;
        if hasTarget {
          root := Some(root.value.Attribute(attrName, attrValue));
        }
        assert attrs[..i + 1][..i] == attrs[..i];
      }
      assert attrs[..|attrs|] == attrs;
    }

    /**
     * `declareNamespaces(pp, node)`: on the first element, the full scan of
     * the namespace table from the top down, skipping a prefixed entry that a
     * later entry redeclares; on every later element, the entries added at
     * the current depth. The declarations go to the root accumulator when
     * `hasNode`, and nowhere otherwise.
     */
    method DeclareNamespaces(hasNode: bool)
      requires pp != null && pp.Valid() && pp.Current().StartTag?
      requires hasNode ==> root.Some?
      modifies this`scanNamespaces, this`root
      ensures !scanNamespaces
      ensures root == if hasNode
        then Some(old(root).value.DeclareAll(NamespaceDecls(old(scanNamespaces), pp.Depth(), pp.Current().table)))
        else old(root)
    {
      if scanNamespaces {
        scanNamespaces := false;
        DeclareInScope(hasNode);
      } else {
        DeclareAtDepth(hasNode);
      }
    }

    /**
     * The first branch of `declareNamespaces`: every table entry from
     * `count(depth) - 1` down to `count(0)`, except a prefixed entry whose
     * prefix a later entry redeclares (`continue@LOOP`).
     */
    method DeclareInScope(hasNode: bool)
      requires pp != null && pp.Valid() && pp.Current().StartTag?
      requires hasNode ==> root.Some?
      modifies this`root
      ensures root == if hasNode
        then Some(old(root).value.DeclareAll(NamespaceDecls(true, pp.Depth(), pp.Current().table)))
        else old(root)
    {
      ghost var entries := pp.Current().table.entries;
      ghost var r0 := root;
      var top := pp.NamespaceCount(pp.Depth()) - 1;
      var lo := pp.NamespaceCount(0);
      var i := top + 1;
      label Scan:
      while i > lo
        invariant lo <= top + 1 ==> lo <= i <= top + 1
        invariant lo > top + 1 ==> i == top + 1
        invariant top + 1 <= |entries|
        invariant hasNode ==> root.Some? && DeclaredOn(root.value, r0.value, ScanDecls(entries, i, top + 1))
        invariant !hasNode ==> root == r0
      {
        i := i - 1;
        var prefix := pp.NamespacePrefix(i);
        var j := top + 1;
        while j > i + 1
          invariant i + 1 <= j <= top + 1
          invariant forall m :: j <= m <= top ==> !(prefix.Some? && entries[m].prefix == prefix)
        {
          j := j - 1;
          var prefixJ := pp.NamespacePrefix(j);
          // the source also tests `prefix === prefixJ`, which implies equality
          if prefix.Some? && prefix == prefixJ {
            assert Shadowed(entries, i, top + 1);
            assert ScanDecls(entries, i, top + 1) == ScanDecls(entries, i + 1, top + 1);
            continue Scan;
          }
        }
        assert !Shadowed(entries, i, top + 1);
        assert ScanDecls(entries, i, top + 1) == ScanDecls(entries, i + 1, top + 1) + [Decl(entries[i])];
        DeclareOneNamespace(i, hasNode);
      }
      assert ScanDecls(entries, i, top + 1) == ScanDecls(entries, lo, top + 1);
      assert NamespaceDecls(true, pp.Depth(), pp.Current().table) == ScanDecls(entries, lo, top + 1);
      if hasNode {
        DeclaredOnIsDeclareAll(root.value, r0.value, ScanDecls(entries, lo, top + 1));
      }
    }

    /** The second branch of `declareNamespaces`: the entries `[count(depth - 1), count(depth))` in order. */
    method DeclareAtDepth(hasNode: bool)
      requires pp != null && pp.Valid() && pp.Current().StartTag?
      requires hasNode ==> root.Some?
      modifies this`root
      ensures root == if hasNode
        then Some(old(root).value.DeclareAll(NamespaceDecls(false, pp.Depth(), pp.Current().table)))
        else old(root)
    {
      ghost var entries := pp.Current().table.entries;
      ghost var r0 := root;
      var i := pp.NamespaceCount(pp.Depth() - 1);
      var hi := pp.NamespaceCount(pp.Depth());
      ghost var lo := i;
      while i < hi
        invariant lo <= hi ==> lo <= i <= hi
        invariant lo > hi ==> i == lo
        invariant hi <= |entries|
        invariant hasNode ==> root.Some? && DeclaredOn(root.value, r0.value, DeltaDecls(entries, lo, i))
        invariant !hasNode ==> root == r0
      {
        assert DeltaDecls(entries, lo, i + 1) == DeltaDecls(entries, lo, i) + [Decl(entries[i])];
        DeclareOneNamespace(i, hasNode);
        i := i + 1;
      }
      assert DeltaDecls(entries, lo, i) == DeltaDecls(entries, lo, hi);
      assert NamespaceDecls(false, pp.Depth(), pp.Current().table) == DeltaDecls(entries, lo, hi);
      if hasNode {
        DeclaredOnIsDeclareAll(root.value, r0.value, DeltaDecls(entries, lo, hi));
      }
    }

    /** `declareOneNamespace(pp, i, node)`: declares table entry `i` on the root accumulator when `hasNode`. */
    method DeclareOneNamespace(i: int, hasNode: bool)
      requires pp != null && pp.Current().StartTag? && 0 <= i < |pp.Current().table.entries|
      requires hasNode ==> root.Some?
      modifies this`root
      ensures hasNode ==> root == Some(old(root).value.Namespace(Decl(pp.Current().table.entries[i]).0, Decl(pp.Current().table.entries[i]).1))
      ensures !hasNode ==> root == old(root)
    {
      var xmlnsPrefix := pp.NamespacePrefix(i);
      var xmlnsUri := pp.NamespaceUri(i);
      var xmlnsDecl := DeclName(xmlnsPrefix);
      if hasNode {
        root := Some(root.value.Namespace(xmlnsDecl, xmlnsUri));
      }
    }
  }

  /** `NodeXmlPullBuilder.parseSubTree(pp)`: a fresh process parses from the parser's current event. */
  method ParseSubTree(p: Parser) returns (r: Result<Node, ParseError>)
    requires p.Valid()
    modifies p
    ensures p.Valid()
    ensures (r, p.pos) == (var out := Element(p.events, State(old(p.pos), true, None), false); (out.0, out.1.pos))
  {
    var process := new BuildProcess();
    r := process.ParseSubTree(p);
  }
}
