/**
 * The pure string computations of the driver: the qualified element name,
 * the name of a namespace declaration, and the trimming of text events.
 */
module Names {
  import opened Wrappers

  predicate NoColon(s: string) {
    forall k :: 0 <= k < |s| ==> s[k] != ':'
  }

  /** Index of the first ':' in `s`, or `|s|` when there is none. */
  function FirstColon(s: string): (k: nat)
    ensures k <= |s| && NoColon(s[..k]) && (k < |s| ==> s[k] == ':')
  {
    if s == [] then 0
    else if s[0] == ':' then 0
    else
      var k := 1 + FirstColon(s[1..]);
      assert s[..k] == [s[0]] + s[1..][..k - 1];
      k
  }

  /** Splits a qualified name at its first ':' into prefix and local name. */
  function SplitQName(q: string): (r: (Option<string>, string)) {
    var k := FirstColon(q);
    if k == |q| then (None, q) else (Some(q[..k]), q[k + 1..])
  }

  /** The qualified element name: "prefix:local" when the parser reports a prefix, the bare local name otherwise. */
  function QName(prefix: Option<string>, name: string): (r: string) {
    if prefix.Some? then prefix.value + ":" + name else name
  }

  /**
   * Without a prefix the qualified name is the local name; for a prefix and a
   * local name without ':' (XML NCNames) both parts can be recovered from it.
   */
  lemma QNameSplit(prefix: Option<string>, name: string)
    ensures prefix.None? ==> QName(prefix, name) == name
    ensures NoColon(name) && (prefix.Some? ==> NoColon(prefix.value)) ==> SplitQName(QName(prefix, name)) == (prefix, name)
  {
    if prefix.Some? {
      SplitJoined(prefix.value, name);
    }
  }

  lemma SplitJoined(p: string, n: string)
    ensures NoColon(p) && NoColon(n) ==> SplitQName(p + ":" + n) == (Some(p), n)
  {
    var q := p + ":" + n;
    if NoColon(p) {
      assert q[..|p|] == p && q[|p| + 1..] == n;
      FirstColonAt(q, |p|);
    }
  }

  lemma {:induction false} FirstColonAt(s: string, m: nat)
    requires m < |s| && NoColon(s[..m]) && s[m] == ':'
    ensures FirstColon(s) == m
  {
    if m > 0 {
      assert s[0] == s[..m][0];
      assert s[1..][..m - 1] == s[..m][1..];
      FirstColonAt(s[1..], m - 1);
    }
  }

  lemma QNameInjective(p1: Option<string>, n1: string, p2: Option<string>, n2: string)
    requires NoColon(n1) && (p1.Some? ==> NoColon(p1.value))
    requires NoColon(n2) && (p2.Some? ==> NoColon(p2.value))
    requires QName(p1, n1) == QName(p2, n2)
    ensures p1 == p2 && n1 == n2
  {
    QNameSplit(p1, n1);
    QNameSplit(p2, n2);
  }

  /** The declaration name of a namespace table entry: "xmlns:prefix", or "xmlns" for the default namespace. */
  function DeclName(prefix: Option<string>): (r: string) {
    if prefix.Some? then "xmlns:" + prefix.value else "xmlns"
  }

  /** A declaration name is "xmlns", followed by ':' and the prefix exactly when there is one. */
  lemma DeclNameForm(prefix: Option<string>)
    ensures var r := DeclName(prefix);
      |r| >= 5 && r[..5] == "xmlns" &&
      (prefix.None? <==> |r| == 5) &&
      (prefix.Some? ==> r[5] == ':' && r[6..] == prefix.value)
  {
  }

  lemma DeclNameInjective(p1: Option<string>, p2: Option<string>)
    requires DeclName(p1) == DeclName(p2)
    ensures p1 == p2
  {
    DeclNameForm(p1);
    DeclNameForm(p2);
    if p1.Some? && p2.Some? {
      assert p1.value == DeclName(p1)[6..] == DeclName(p2)[6..] == p2.value;
    }
  }

  /** Kotlin's `Char.isWhitespace()`: Java's `isWhitespace` or `isSpaceChar`. */
  predicate IsWhitespace(c: char) {
    var n := c as int;
    (0x09 <= n <= 0x0D) || (0x1C <= n <= 0x20) || n == 0xA0 || n == 0x1680 ||
    (0x2000 <= n <= 0x200A) || n == 0x2028 || n == 0x2029 || n == 0x202F ||
    n == 0x205F || n == 0x3000
  }

  /** The trim predicate of the text branch: whitespace, '\r' or '\n'. */
  predicate IsTrimmed(c: char) {
    IsWhitespace(c) || c == '\r' || c == '\n'
  }

  /** The first index from `i` on whose character is kept, or `|s|`. */
  function KeptFrom(s: string, i: nat): (k: nat)
    requires i <= |s|
    ensures i <= k <= |s| && (k < |s| ==> !IsTrimmed(s[k]))
    ensures forall m :: i <= m < k ==> IsTrimmed(s[m])
    decreases |s| - i
  {
    if i < |s| && IsTrimmed(s[i]) then KeptFrom(s, i + 1) else i
  }

  /** Scanning down from `j`, but not below `lo`: one past the last kept character. */
  function KeptTo(s: string, j: nat, lo: nat): (k: nat)
    requires lo <= j <= |s|
    ensures lo <= k <= j && (k > lo ==> !IsTrimmed(s[k - 1]))
    ensures forall m :: k <= m < j ==> IsTrimmed(s[m])
    decreases j
  {
    if j > lo && IsTrimmed(s[j - 1]) then KeptTo(s, j - 1, lo) else j
  }

  /**
   * `text.trim { it.isWhitespace() || it == '\r' || it == '\n' }`: the start
   * index moves up past trimmed characters, then the end index moves down to
   * it past trimmed characters; the result is the slice between them.
   */
  function Trim(s: string): (r: string)
    ensures exists i, j :: TrimmedAt(s, i, j) && r == s[i..j]
  {
    var i := KeptFrom(s, 0);
    var j := KeptTo(s, |s|, i);
    assert TrimmedAt(s, i, j);
    s[i..j]
  }

  /** `s[i..j]` is a trimmed form of `s`. */
  predicate TrimmedAt(s: string, i: int, j: int) {
    0 <= i <= j <= |s| &&
    (forall k :: 0 <= k < i ==> IsTrimmed(s[k])) &&
    (forall k :: j <= k < |s| ==> IsTrimmed(s[k])) &&
    (i < j ==> !IsTrimmed(s[i]) && !IsTrimmed(s[j - 1]))
  }

  /** There is only one trimmed form, so `Trim` is determined by `TrimmedAt`. */
  lemma {:induction false} TrimUnique(s: string, i: int, j: int)
    requires TrimmedAt(s, i, j)
    ensures Trim(s) == s[i..j]
  {
    var r := Trim(s);
    var i', j' :| TrimmedAt(s, i', j') && r == s[i'..j'];
    if i < j && i' < j' {
      // both start at the first kept character and end after the last
      assert i == i' && j == j';
    } else if i < j || i' < j' {
      // one of them is empty, so every character is trimmed
      assert false;
    }
  }

  lemma TrimIdempotent(s: string)
    ensures Trim(Trim(s)) == Trim(s)
  {
    var r := Trim(s);
    assert TrimmedAt(r, 0, |r|);
    TrimUnique(r, 0, |r|);
  }
}
