/**
 * Which entries of the parser's namespace table `declareNamespaces` declares
 * (NodeXmlPullBuilder.kt, lines 106-136), as functions on the table, and the
 * properties of the de-duplicating full scan.
 */
module NamespaceScan {
  import opened Wrappers
  import opened Names
  import opened PullParser

  /** Entry `i` is skipped by the full scan up to `hi`: it has a prefix and a later entry below `hi` has the same one. */
  predicate Shadowed(entries: seq<NsEntry>, i: int, hi: int)
    requires 0 <= i < hi <= |entries|
  {
    entries[i].prefix.Some? && exists j :: i < j < hi && entries[j].prefix == entries[i].prefix
  }

  /**
   * The indices the full scan declares among `[i, hi)`, in the order it
   * declares them (from `hi - 1` down to `i`).
   */
  function Scanned(entries: seq<NsEntry>, i: nat, hi: nat): (r: seq<int>)
    requires hi <= |entries|
    ensures forall k :: 0 <= k < |r| ==> i <= r[k] < hi
    decreases hi - i
  {
    if i >= hi then []
    else Scanned(entries, i + 1, hi) + (if Shadowed(entries, i, hi) then [] else [i])
  }

  /** The full scan runs downwards: each declared index is below the ones declared before it. */
  lemma {:induction false} ScannedDescending(entries: seq<NsEntry>, i: nat, hi: nat)
    requires hi <= |entries|
    ensures forall a, b :: 0 <= a < b < |Scanned(entries, i, hi)| ==> Scanned(entries, i, hi)[a] > Scanned(entries, i, hi)[b]
    decreases hi - i
  {
    if i < hi {
      ScannedDescending(entries, i + 1, hi);
      var rest := Scanned(entries, i + 1, hi);
      if Shadowed(entries, i, hi) {
        assert Scanned(entries, i, hi) == rest + [] == rest;
      } else {
        var r := rest + [i];
        assert Scanned(entries, i, hi) == r;
        forall a, b | 0 <= a < b < |r| ensures r[a] > r[b] {
          if b == |rest| {
            assert r[a] == rest[a] >= i + 1;
          } else {
            assert r[a] == rest[a] > rest[b] == r[b];
          }
        }
      }
    }
  }

  /** `declareOneNamespace`: an entry becomes the declaration ("xmlns:prefix" or "xmlns", uri). */
  function Decl(e: NsEntry): (d: (string, string)) {
    (DeclName(e.prefix), e.uri)
  }

  /** The declarations of the entries at `idx`, in order. */
  function Decls(entries: seq<NsEntry>, idx: seq<int>): (r: seq<(string, string)>)
    requires forall k :: 0 <= k < |idx| ==> 0 <= idx[k] < |entries|
  {
    seq(|idx|, k requires 0 <= k < |idx| => Decl(entries[idx[k]]))
  }

  lemma DeclsAppend(entries: seq<NsEntry>, idx: seq<int>, i: int)
    requires forall k :: 0 <= k < |idx| ==> 0 <= idx[k] < |entries|
    requires 0 <= i < |entries|
    ensures Decls(entries, idx + [i]) == Decls(entries, idx) + [Decl(entries[i])]
  {
  }

  /**
   * The declarations the full scan makes among `[i, hi)`, in the order it makes
   * them: entry `hi - 1` first, a shadowed entry skipped.
   */
  function ScanDecls(entries: seq<NsEntry>, i: nat, hi: nat): (r: seq<(string, string)>)
    requires hi <= |entries|
    decreases hi - i
  {
    if i >= hi then []
    else ScanDecls(entries, i + 1, hi) + (if Shadowed(entries, i, hi) then [] else [Decl(entries[i])])
  }

  /** The declarations of the entries `[lo, hi)` in increasing order: what a nested element declares. */
  function DeltaDecls(entries: seq<NsEntry>, lo: nat, hi: nat): (r: seq<(string, string)>)
    requires hi <= |entries|
    decreases hi
  {
    if hi <= lo then [] else DeltaDecls(entries, lo, hi - 1) + [Decl(entries[hi - 1])]
  }

  /**
   * What `declareNamespaces` declares for a start tag at `depth`: on the first
   * element (scan still set) the full scan of `[count(0), count(depth))`,
   * afterwards the entries `[count(depth - 1), count(depth))`.
   */
  function NamespaceDecls(scan: bool, depth: nat, table: NamespaceTable): (r: seq<(string, string)>)
    requires ValidTable(depth, table)
  {
    var entries, counts := table.entries, table.counts;
    if scan then ScanDecls(entries, counts[0], counts[depth])
    else DeltaDecls(entries, counts[depth - 1], counts[depth])
  }

  /** The full scan's declarations are those of the entries `Scanned` picks, in its order. */
  lemma {:induction false} ScanDeclsAreScanned(entries: seq<NsEntry>, i: nat, hi: nat)
    requires hi <= |entries|
    ensures ScanDecls(entries, i, hi) == Decls(entries, Scanned(entries, i, hi))
    decreases hi - i
  {
    if i < hi {
      ScanDeclsAreScanned(entries, i + 1, hi);
      ScannedDeclsStep(entries, i, hi);
      ScanDeclsStep(entries, i, hi);
    }
  }

  lemma ScanDeclsStep(entries: seq<NsEntry>, i: nat, hi: nat)
    requires i < hi <= |entries|
    ensures Shadowed(entries, i, hi) ==> ScanDecls(entries, i, hi) == ScanDecls(entries, i + 1, hi)
    ensures !Shadowed(entries, i, hi) ==> ScanDecls(entries, i, hi) == ScanDecls(entries, i + 1, hi) + [Decl(entries[i])]
  {
    if Shadowed(entries, i, hi) {
      assert ScanDecls(entries, i, hi) == ScanDecls(entries, i + 1, hi) + [];
    }
  }

  lemma ScannedDeclsStep(entries: seq<NsEntry>, i: nat, hi: nat)
    requires i < hi <= |entries|
    ensures Shadowed(entries, i, hi) ==> Decls(entries, Scanned(entries, i, hi)) == Decls(entries, Scanned(entries, i + 1, hi))
    ensures !Shadowed(entries, i, hi) ==>
      Decls(entries, Scanned(entries, i, hi)) == Decls(entries, Scanned(entries, i + 1, hi)) + [Decl(entries[i])]
  {
    var rest := Scanned(entries, i + 1, hi);
    if Shadowed(entries, i, hi) {
      assert Scanned(entries, i, hi) == rest + [];
      assert rest + [] == rest;
    } else {
      assert Scanned(entries, i, hi) == rest + [i];
      DeclsAppend(entries, rest, i);
    }
  }

  /** A nested element declares every entry of `[lo, hi)` once, in table order. */
  lemma {:induction false} DeltaDeclsAt(entries: seq<NsEntry>, lo: nat, hi: nat, k: int)
    requires hi <= |entries|
    ensures |DeltaDecls(entries, lo, hi)| == if lo <= hi then hi - lo else 0
    ensures lo <= hi && 0 <= k < hi - lo ==> DeltaDecls(entries, lo, hi)[k] == Decl(entries[lo + k])
    decreases hi
  {
    if lo < hi {
      DeltaDeclsAt(entries, lo, hi - 1, k);
    }
  }

  /** The highest index below `hi` whose prefix is `p`, or -1. */
  function LastIndexOf(entries: seq<NsEntry>, p: Option<string>, hi: nat): (r: int)
    requires hi <= |entries|
    ensures -1 <= r < hi && (r >= 0 ==> entries[r].prefix == p)
    ensures forall j :: r < j < hi ==> entries[j].prefix != p
  {
    if hi == 0 then -1
    else if entries[hi - 1].prefix == p then hi - 1
    else LastIndexOf(entries, p, hi - 1)
  }

  /** The full scan declares exactly the entries in range that no later entry shadows. */
  lemma {:induction false} ScannedMembers(entries: seq<NsEntry>, i: nat, hi: nat, k: int)
    requires hi <= |entries|
    ensures k in Scanned(entries, i, hi) <==> i <= k < hi && !Shadowed(entries, k, hi)
    decreases hi - i
  {
    if i < hi {
      ScannedMembers(entries, i + 1, hi, k);
      var rest := Scanned(entries, i + 1, hi);
      if Shadowed(entries, i, hi) {
        assert Scanned(entries, i, hi) == rest + [] == rest;
      } else {
        assert Scanned(entries, i, hi) == rest + [i];
        assert k in rest + [i] <==> k in rest || k == i;
      }
    }
  }

  /** Entries without a prefix (default-namespace declarations) are never skipped. */
  lemma DefaultsKept(entries: seq<NsEntry>, lo: nat, hi: nat)
    requires hi <= |entries|
    ensures forall k :: lo <= k < hi && entries[k].prefix.None? ==> k in Scanned(entries, lo, hi)
  {
    forall k | lo <= k < hi && entries[k].prefix.None? ensures k in Scanned(entries, lo, hi) {
      ScannedMembers(entries, lo, hi, k);
    }
  }

  /**
   * Each prefix is declared at most once, by its latest (highest-index)
   * binding, and that binding is declared whenever it lies in range.
   */
  lemma LatestBindingWins(entries: seq<NsEntry>, lo: nat, hi: nat, p: Option<string>)
    requires hi <= |entries| && p.Some?
    ensures forall k :: k in Scanned(entries, lo, hi) && entries[k].prefix == p ==> k == LastIndexOf(entries, p, hi)
    ensures lo <= LastIndexOf(entries, p, hi) ==> LastIndexOf(entries, p, hi) in Scanned(entries, lo, hi)
  {
    var last := LastIndexOf(entries, p, hi);
    forall k | k in Scanned(entries, lo, hi) && entries[k].prefix == p ensures k == last {
      ScannedMembers(entries, lo, hi, k);
    }
    if lo <= last {
      ScannedMembers(entries, lo, hi, last);
    }
  }

  /** No two declarations of the full scan carry the same name, except the default-namespace "xmlns". */
  lemma DeclaredNamesUnique(entries: seq<NsEntry>, lo: nat, hi: nat)
    requires hi <= |entries|
    ensures var ds := ScanDecls(entries, lo, hi);
      forall a, b :: 0 <= a < b < |ds| && ds[a].0 == ds[b].0 ==> ds[a].0 == "xmlns"
  {
    ScanDeclsAreScanned(entries, lo, hi);
    ScannedNamesUnique(entries, lo, hi);
  }

  lemma ScannedNamesUnique(entries: seq<NsEntry>, lo: nat, hi: nat)
    requires hi <= |entries|
    ensures var ds := Decls(entries, Scanned(entries, lo, hi));
      forall a, b :: 0 <= a < b < |ds| && ds[a].0 == ds[b].0 ==> ds[a].0 == "xmlns"
  {
    var idx := Scanned(entries, lo, hi);
    var ds := Decls(entries, idx);
    ScannedDescending(entries, lo, hi);
    forall a, b | 0 <= a < b < |ds| && ds[a].0 == ds[b].0 ensures ds[a].0 == "xmlns" {
      var p := entries[idx[a]].prefix;
      DeclNameInjective(p, entries[idx[b]].prefix);
      if p.Some? {
        LatestBindingWins(entries, lo, hi, p);
        assert false;
      }
    }
  }
}
