/** compare_xml: a lockstep walk over two documents decides whether they are the same tree once the
    ignored nodes of the old one are removed. */
module CompareXml {
  import opened DomTree

  datatype Options = Options(preserveComments: bool, preservePIs: bool, preserveDTs: bool)

  /** Nodes that skipIgnoredData passes over. */
  predicate Ignored(opts: Options, tag: Label) {
    match tag.kind
    case Comment => !opts.preserveComments
    case Pi => !opts.preservePIs
    case Doctype => !opts.preserveDTs
    case Data => tag.value == "\n"
    case _ => false
  }

  function Filter(opts: Options, es: seq<Entry>): seq<Entry> {
    if es == [] then []
    else (if Ignored(opts, es[0].tag) then [] else [es[0]]) + Filter(opts, es[1..])
  }

  /** The attributes as a map; a repeated name keeps its last value. */
  function AttrMap(attrs: seq<(string, string)>): map<string, string> {
    if attrs == [] then map[]
    else AttrMap(attrs[..|attrs| - 1])[attrs[|attrs| - 1].0 := attrs[|attrs| - 1].1]
  }

  predicate SameTag(a: Label, b: Label) {
    a.kind == b.kind && a.name == b.name && a.value == b.value && AttrMap(a.attrs) == AttrMap(b.attrs)
  }

  predicate MatchAll(a: seq<Entry>, b: seq<Entry>) {
    |a| == |b| && forall i :: 0 <= i < |a| ==> a[i].depth == b[i].depth && SameTag(a[i].tag, b[i].tag)
  }

  /** Trees equal in shape, kind, name, value and attribute map. */
  predicate SameTree(a: Tree, b: Tree)
    decreases a, 1
  {
    SameTag(a.tag, b.tag) && SameAll(a.children, b.children)
  }

  predicate SameAll(a: seq<Tree>, b: seq<Tree>)
    decreases a, 0
  {
    if a == [] || b == [] then a == b else SameTree(a[0], b[0]) && SameAll(a[1..], b[1..])
  }

  /** The trees without the ignored nodes and whatever is below them. */
  function Prune(opts: Options, ts: seq<Tree>): seq<Tree> {
    if ts == [] then []
    else
      var kept := if Ignored(opts, ts[0].tag) then [] else [Tree(ts[0].tag, Prune(opts, ts[0].children))];
      kept + Prune(opts, ts[1..])
  }

  /** No node that is kept lies below an ignored one; the parser only makes leaves of such nodes. */
  predicate Clean(opts: Options, ts: seq<Tree>) {
    if ts == [] then true
    else
      && (if Ignored(opts, ts[0].tag) then Filter(opts, FlatAll(ts[0].children, 0)) == []
        else Clean(opts, ts[0].children))
      && Clean(opts, ts[1..])
  }

  // ----- the node iterator

  class XMLNodeIt {
    const doc: Tree
    var path: Path
    var depth: nat

    ghost predicate Valid()
      reads this
    {
      ValidPath(doc, path) && depth == |path|
    }

    ghost function Rest(): seq<Entry>
      requires Valid()
      reads this
    {
      Remaining(doc, path)
    }

    constructor (doc: Tree)
      ensures this.doc == doc && Valid() && path == []
    {
      this.doc := doc;
      path, depth := [], 0;
    }

    function Tag(): Label
      requires Valid()
      reads this
    {
      Sub(doc, path).tag
    }

    /** Moves to the next node in document order, or back to the document when there is none. */
    method Next() returns (moved: bool)
      requires Valid()
      modifies this
      ensures Valid() && moved == (old(Rest()) != [])
      ensures moved ==> path != [] && old(Rest()) == [Entry(depth, Tag())] + Rest()
      ensures !moved ==> path == []
    {
      hide After, FlatAll, Sub;
      ghost var before := path;
      if HasChild(doc, path) {
        StepDown(doc, path);
        path, depth := path + [0], depth + 1;
        return true;
      }
      NoChild(doc, path);
      if path == [] {
        AfterRoot(doc);
        return false;
      }
      if HasSibling(doc, path) {
        StepAcross(doc, path);
        path := SiblingPath(path);
        return true;
      }
      StepUp(doc, path);
      path, depth := Init(path), depth - 1;
      while path != []
        invariant Valid() && After(doc, before, 0) == After(doc, path, 0)
        decreases |path|
      {
        if HasSibling(doc, path) {
          StepAcross(doc, path);
          path := SiblingPath(path);
          return true;
        }
        StepUp(doc, path);
        path, depth := Init(path), depth - 1;
      }
      AfterRoot(doc);
      return false;
    }
  }

  /** Moves to the next node that is not ignored. */
  method SkipIgnoredData(opts: Options, it: XMLNodeIt) returns (found: bool)
    requires it.Valid()
    modifies it
    ensures it.Valid() && found == (old(Filter(opts, it.Rest())) != [])
    ensures found ==>
      it.path != [] && old(Filter(opts, it.Rest())) == [Entry(it.depth, it.Tag())] + Filter(opts, it.Rest())
  {
    hide Remaining, Ignored, Sub;
    ghost var all := Filter(opts, it.Rest());
    var moved := it.Next();
    while moved && Ignored(opts, it.Tag())
      invariant it.Valid()
      invariant moved ==> it.path != [] && all == Filter(opts, [Entry(it.depth, it.Tag())] + it.Rest())
      invariant !moved ==> all == []
      decreases if moved then |it.Rest()| + 1 else 0
    {
      FilterCons(opts, Entry(it.depth, it.Tag()), it.Rest());
      moved := it.Next();
    }
    if moved { FilterCons(opts, Entry(it.depth, it.Tag()), it.Rest()); }
    found := moved;
  }

  lemma FilterCons(opts: Options, e: Entry, es: seq<Entry>)
    ensures Filter(opts, [e] + es) == (if Ignored(opts, e.tag) then [] else [e]) + Filter(opts, es)
    ensures Ignored(opts, e.tag) ==> Filter(opts, [e] + es) == Filter(opts, es)
  {
    assert ([e] + es)[1..] == es;
  }

  method CollectAttrs(attrs: seq<(string, string)>) returns (m: map<string, string>)
    ensures m == AttrMap(attrs)
  {
    m := map[];
    for i := 0 to |attrs|
      invariant m == AttrMap(attrs[..i])
    {
      assert attrs[..i + 1][..i] == attrs[..i];
      m := m[attrs[i].0 := attrs[i].1];
    }
    assert attrs[..|attrs|] == attrs;
  }

  /** Takes every old attribute out of the new ones and says whether each was there with its value. */
  method ExtractAll(oldAttrs: map<string, string>, newAttrs: map<string, string>)
      returns (same: bool, left: map<string, string>)
    ensures same == forall k :: k in oldAttrs ==> k in newAttrs && newAttrs[k] == oldAttrs[k]
    ensures left == newAttrs - oldAttrs.Keys
  {
    same, left := true, newAttrs;
    var keys := oldAttrs.Keys;
    while keys != {}
      invariant keys <= oldAttrs.Keys
      invariant forall k :: k in left <==> k in newAttrs && k !in oldAttrs.Keys - keys
      invariant forall k :: k in left ==> left[k] == newAttrs[k]
      invariant same == forall k :: k in oldAttrs && k !in keys ==> k in newAttrs && newAttrs[k] == oldAttrs[k]
      decreases |keys|
    {
      var key :| key in keys;
      if key !in left {
        same := false;
      } else {
        if oldAttrs[key] != left[key] {
          same := false;
        }
        left := left - {key};
      }
      keys := keys - {key};
    }
  }

  method CompareAttributes(oldTag: Label, newTag: Label) returns (same: bool)
    ensures same == (AttrMap(oldTag.attrs) == AttrMap(newTag.attrs))
  {
    hide AttrMap;
    AttrsNonEmpty(oldTag.attrs);
    AttrsNonEmpty(newTag.attrs);
    if oldTag.attrs == [] || newTag.attrs == [] {
      return oldTag.attrs == newTag.attrs;
    }
    var oldAttrs := CollectAttrs(oldTag.attrs);
    var newAttrs := CollectAttrs(newTag.attrs);
    var left;
    same, left := ExtractAll(oldAttrs, newAttrs);
    NothingLeft(oldAttrs, newAttrs);
    if |left| != 0 {
      same := false;
    }
  }

  lemma NothingLeft(a: map<string, string>, n: map<string, string>)
    ensures a == n <==> |n - a.Keys| == 0 && forall k :: k in a ==> k in n && n[k] == a[k]
  {
    var left := n - a.Keys;
    if |left| == 0 {
      assert left == map[];
      forall k | k in n ensures k in a { assert k !in left; }
    }
    if a == n { assert left.Keys == {}; }
  }

  lemma AttrsNonEmpty(attrs: seq<(string, string)>)
    ensures AttrMap(attrs) == map[] <==> attrs == []
  {
    if attrs != [] { assert attrs[|attrs| - 1].0 in AttrMap(attrs); }
  }

  lemma MatchCons(a: Entry, as_: seq<Entry>, b: Entry, bs: seq<Entry>)
    ensures MatchAll([a] + as_, [b] + bs) <==> a.depth == b.depth && SameTag(a.tag, b.tag) && MatchAll(as_, bs)
  {
    hide SameTag;
    var x, y := [a] + as_, [b] + bs;
    assert x[0] == a && y[0] == b;
    assert forall i :: 0 <= i < |as_| ==> x[i + 1] == as_[i];
    assert forall i :: 0 <= i < |bs| ==> y[i + 1] == bs[i];
    if MatchAll(x, y) {
      forall i | 0 <= i < |as_| ensures as_[i].depth == bs[i].depth && SameTag(as_[i].tag, bs[i].tag) {
        assert x[i + 1].depth == y[i + 1].depth && SameTag(x[i + 1].tag, y[i + 1].tag);
      }
    }
  }

  /** The lockstep comparison, with its early exit after more than ten differences. */
  method Compare(opts: Options, oldNode: XMLNodeIt, newNode: XMLNodeIt) returns (same: bool)
    requires oldNode != newNode && oldNode.Valid() && newNode.Valid()
    requires NoDocuments(oldNode.doc.children)
    modifies oldNode, newNode
    ensures same == old(MatchAll(Filter(opts, oldNode.Rest()), newNode.Rest()))
  {
    hide Remaining, Filter, MatchAll, Sub, SameTag;
    ghost var total := MatchAll(Filter(opts, oldNode.Rest()), newNode.Rest());
    var errorCount := 0;
    var more := newNode.Next();
    MatchEnds(Filter(opts, oldNode.Rest()));
    while more
      invariant oldNode.Valid() && newNode.Valid()
      invariant more ==>
        (total <==>
          && errorCount == 0
          && MatchAll(Filter(opts, oldNode.Rest()), [Entry(newNode.depth, newNode.Tag())] + newNode.Rest()))
      invariant !more ==> (total <==> errorCount == 0 && Filter(opts, oldNode.Rest()) == [])
      decreases if more then |newNode.Rest()| + 1 else 0
    {
      if errorCount > 10 {
        return false;
      }
      ghost var b, bs := Entry(newNode.depth, newNode.Tag()), newNode.Rest();
      var found := SkipIgnoredData(opts, oldNode);
      if !found {
        MatchLength([], [b] + bs);
        return false;
      }
      MatchCons(Entry(oldNode.depth, oldNode.Tag()), Filter(opts, oldNode.Rest()), b, bs);
      if oldNode.depth != newNode.depth {
        return false;
      }
      var differences := CountDifferences(oldNode.Tag(), newNode.Tag());
      errorCount := errorCount + differences;
      more := newNode.Next();
      MatchEnds(Filter(opts, oldNode.Rest()));
    }
    var found := SkipIgnoredData(opts, oldNode);
    if !found {
      return errorCount == 0;
    }
    BelowRoot(oldNode.doc, oldNode.path);
    if oldNode.Tag().kind != Document {
      return false;
    }
    return errorCount == 0;
  }

  method CountDifferences(oldTag: Label, newTag: Label) returns (n: nat)
    ensures n == 0 <==> SameTag(oldTag, newTag)
  {
    n := 0;
    if oldTag.kind != newTag.kind {
      n := n + 1;
    }
    if oldTag.name != newTag.name {
      n := n + 1;
    }
    if oldTag.value != newTag.value {
      n := n + 1;
    }
    var attrs := CompareAttributes(oldTag, newTag);
    if !attrs {
      n := n + 1;
    }
  }

  lemma MatchLength(a: seq<Entry>, b: seq<Entry>)
    requires |a| != |b|
    ensures !MatchAll(a, b)
  {
  }

  lemma MatchEnds(a: seq<Entry>)
    ensures MatchAll(a, []) <==> a == []
  {
  }

  lemma {:induction false} BelowRoot(t: Tree, path: Path)
    requires NoDocuments(t.children) && ValidPath(t, path) && path != []
    ensures Sub(t, path).tag.kind != Document
    decreases |path|
  {
    var c := t.children[path[0]];
    assert c in t.children;
    if |path| > 1 { BelowRoot(c, path[1..]); }
  }

  // ----- preorder with depths determines the tree

  lemma {:induction false} Depths(ts: seq<Tree>, d: nat)
    ensures forall i :: 0 <= i < |FlatAll(ts, d)| ==> FlatAll(ts, d)[i].depth >= d
    ensures ts != [] ==> FlatAll(ts, d) != [] && FlatAll(ts, d)[0] == Entry(d, ts[0].tag)
    decreases ts
  {
    if ts != [] {
      Depths(ts[0].children, d + 1);
      Depths(ts[1..], d);
      assert FlatAll(ts, d)[0] == Flat(ts[0], d)[0];
    }
  }

  /** The entries of a forest: its first node, the nodes below that one, the other trees. */
  lemma Parts(ts: seq<Tree>, d: nat) returns (e: Entry, low: seq<Entry>, rest: seq<Entry>)
    requires ts != []
    ensures e == Entry(d, ts[0].tag) && low == FlatAll(ts[0].children, d + 1) && rest == FlatAll(ts[1..], d)
    ensures FlatAll(ts, d) == [e] + (low + rest)
    ensures forall i :: 0 <= i < |low| ==> low[i].depth >= d + 1
    ensures rest != [] ==> rest[0].depth == d
  {
    e, low, rest := Entry(d, ts[0].tag), FlatAll(ts[0].children, d + 1), FlatAll(ts[1..], d);
    assert [e] + low + rest == [e] + (low + rest);
    Depths(ts[0].children, d + 1);
    Depths(ts[1..], d);
  }

  lemma ShorterMismatch(d: nat, low: seq<Entry>, rest: seq<Entry>, low': seq<Entry>, rest': seq<Entry>)
    requires |low| < |low'| && (rest != [] ==> rest[0].depth == d)
    requires forall i :: 0 <= i < |low'| ==> low'[i].depth >= d + 1
    ensures !MatchAll(low + rest, low' + rest') && !MatchAll(low' + rest', low + rest)
  {
    var a, b := low + rest, low' + rest';
    if rest != [] { assert a[|low|] == rest[0] && b[|low|] == low'[|low|]; }
  }

  /** Matching sequences are cut at the same place when everything before the cut is deeper. */
  lemma CutTogether(d: nat, low: seq<Entry>, rest: seq<Entry>, low': seq<Entry>, rest': seq<Entry>)
    requires MatchAll(low + rest, low' + rest')
    requires forall i :: 0 <= i < |low| ==> low[i].depth >= d + 1
    requires forall i :: 0 <= i < |low'| ==> low'[i].depth >= d + 1
    requires (rest != [] ==> rest[0].depth == d) && (rest' != [] ==> rest'[0].depth == d)
    ensures |low| == |low'| && MatchAll(low, low') && MatchAll(rest, rest')
  {
    hide SameTag;
    var a, b := low + rest, low' + rest';
    if |low| < |low'| {
      ShorterMismatch(d, low, rest, low', rest');
    } else if |low'| < |low| {
      ShorterMismatch(d, low', rest', low, rest);
    }
    forall i | 0 <= i < |low| ensures low[i].depth == low'[i].depth && SameTag(low[i].tag, low'[i].tag) {
      assert a[i] == low[i] && b[i] == low'[i];
    }
    forall i | 0 <= i < |rest| ensures rest[i].depth == rest'[i].depth && SameTag(rest[i].tag, rest'[i].tag) {
      assert a[|low| + i] == rest[i] && b[|low| + i] == rest'[i];
    }
  }

  lemma MatchConcat(a: seq<Entry>, b: seq<Entry>, a': seq<Entry>, b': seq<Entry>)
    requires MatchAll(a, a') && MatchAll(b, b')
    ensures MatchAll(a + b, a' + b')
  {
  }

  /** Two forests are equal exactly when their preorder sequences with depths match. */
  lemma {:induction false} FlatDecides(ts: seq<Tree>, us: seq<Tree>, d: nat)
    ensures MatchAll(FlatAll(ts, d), FlatAll(us, d)) <==> SameAll(ts, us)
    decreases ts
  {
    hide MatchAll, FlatAll, SameTag;
    if ts == [] || us == [] {
      Depths(ts, d);
      Depths(us, d);
      FlatNothing(d);
      EmptyMatches(FlatAll(ts, d), FlatAll(us, d));
    } else {
      var e, low, rest := Parts(ts, d);
      var e', low', rest' := Parts(us, d);
      MatchCons(e, low + rest, e', low' + rest');
      FlatDecides(ts[0].children, us[0].children, d + 1);
      FlatDecides(ts[1..], us[1..], d);
      if MatchAll(low + rest, low' + rest') { CutTogether(d, low, rest, low', rest'); }
      if MatchAll(low, low') && MatchAll(rest, rest') { MatchConcat(low, rest, low', rest'); }
    }
  }

  lemma FlatNothing(d: nat)
    ensures FlatAll([], d) == []
  {
  }

  lemma EmptyMatches(a: seq<Entry>, b: seq<Entry>)
    requires a == [] || b == []
    ensures MatchAll(a, b) <==> a == b
  {
  }

  // ----- filtering a sequence and pruning a tree

  lemma {:induction false} FilterConcat(opts: Options, a: seq<Entry>, b: seq<Entry>)
    ensures Filter(opts, a + b) == Filter(opts, a) + Filter(opts, b)
    decreases |a|
  {
    hide Ignored;
    if a == [] {
      assert a + b == b;
    } else {
      assert (a + b)[1..] == a[1..] + b;
      FilterConcat(opts, a[1..], b);
    }
  }

  /** Whether entries survive the filter does not depend on their depths. */
  lemma {:induction false} FilterCount(opts: Options, ts: seq<Tree>, d: nat, d': nat)
    ensures |Filter(opts, FlatAll(ts, d))| == |Filter(opts, FlatAll(ts, d'))|
    decreases ts
  {
    hide Ignored, Filter, FlatAll;
    if ts == [] {
      FlatNothing(d);
      FlatNothing(d');
    } else {
      FilterParts(opts, ts, d);
      FilterParts(opts, ts, d');
      FilterCount(opts, ts[0].children, d + 1, d' + 1);
      FilterCount(opts, ts[1..], d, d');
    }
  }

  lemma FilterParts(opts: Options, ts: seq<Tree>, d: nat)
    requires ts != []
    ensures Filter(opts, FlatAll(ts, d)) ==
      (if Ignored(opts, ts[0].tag) then [] else [Entry(d, ts[0].tag)])
      + (Filter(opts, FlatAll(ts[0].children, d + 1)) + Filter(opts, FlatAll(ts[1..], d)))
  {
    hide Ignored, Filter, FlatAll;
    var e, low, rest := Parts(ts, d);
    FilterCons(opts, e, low + rest);
    FilterConcat(opts, low, rest);
  }

  lemma PruneParts(opts: Options, ts: seq<Tree>, d: nat)
    requires ts != []
    ensures FlatAll(Prune(opts, ts), d) ==
      if Ignored(opts, ts[0].tag) then FlatAll(Prune(opts, ts[1..]), d)
      else [Entry(d, ts[0].tag)] + (FlatAll(Prune(opts, ts[0].children), d + 1) + FlatAll(Prune(opts, ts[1..]), d))
  {
    hide Ignored, FlatAll;
    var rest := Prune(opts, ts[1..]);
    if Ignored(opts, ts[0].tag) {
      assert Prune(opts, ts) == rest;
    } else {
      var head := Tree(ts[0].tag, Prune(opts, ts[0].children));
      assert Prune(opts, ts) == [head] + rest;
      var e, low, more := Parts([head] + rest, d);
      assert ([head] + rest)[1..] == rest;
    }
  }

  /** The filtered sequence is never shorter than that of the pruned forest; it is the same sequence
      when no kept node lies below an ignored one, and longer otherwise. */
  lemma {:induction false} FilterAgainstPrune(opts: Options, ts: seq<Tree>, d: nat)
    ensures Clean(opts, ts) ==> Filter(opts, FlatAll(ts, d)) == FlatAll(Prune(opts, ts), d)
    ensures |Filter(opts, FlatAll(ts, d))| >= |FlatAll(Prune(opts, ts), d)|
    ensures |Filter(opts, FlatAll(ts, d))| == |FlatAll(Prune(opts, ts), d)| ==> Clean(opts, ts)
    decreases ts
  {
    hide Ignored, Filter, FlatAll, Prune;
    if ts == [] {
      FlatNothing(d);
      PruneNothing(opts);
      FilterNothing(opts);
    } else {
      FilterParts(opts, ts, d);
      PruneParts(opts, ts, d);
      FilterAgainstPrune(opts, ts[0].children, d + 1);
      FilterAgainstPrune(opts, ts[1..], d);
      FilterCount(opts, ts[0].children, d + 1, 0);
    }
  }

  lemma PruneNothing(opts: Options)
    ensures Prune(opts, []) == []
  {
  }

  lemma FilterNothing(opts: Options)
    ensures Filter(opts, []) == []
  {
  }

  lemma {:induction false} SameAllReflexive(ts: seq<Tree>)
    ensures SameAll(ts, ts)
    decreases ts
  {
    if ts != [] {
      SameAllReflexive(ts[0].children);
      SameAllReflexive(ts[1..]);
    }
  }

  /** What the lockstep comparison decides: equality with the pruned old document, for every new
      document, exactly when no kept node of the old one lies below an ignored node. */
  lemma CompareDecides(opts: Options, ts: seq<Tree>)
    ensures (forall us: seq<Tree> :: MatchAll(Filter(opts, FlatAll(ts, 1)), FlatAll(us, 1)) <==>
      SameAll(Prune(opts, ts), us))
       <==> Clean(opts, ts)
  {
    hide MatchAll, Filter, FlatAll, SameAll, Prune, Clean;
    var f, pruned := Filter(opts, FlatAll(ts, 1)), Prune(opts, ts);
    FilterAgainstPrune(opts, ts, 1);
    if Clean(opts, ts) {
      forall us: seq<Tree> ensures MatchAll(f, FlatAll(us, 1)) <==> SameAll(pruned, us) {
        FlatDecides(pruned, us, 1);
      }
    } else {
      SameAllReflexive(pruned);
      MatchLength(f, FlatAll(pruned, 1));
    }
  }

  /** compare_xml from the start of both documents. */
  method CompareXmlDocuments(opts: Options, oldDoc: Tree, newDoc: Tree) returns (same: bool)
    requires NoDocuments(oldDoc.children)
    ensures same == MatchAll(Filter(opts, FlatAll(oldDoc.children, 1)), FlatAll(newDoc.children, 1))
    ensures Clean(opts, oldDoc.children) ==> same == SameAll(Prune(opts, oldDoc.children), newDoc.children)
  {
    hide MatchAll, Filter, FlatAll, SameAll, Prune, Clean;
    var oldNode := new XMLNodeIt(oldDoc);
    var newNode := new XMLNodeIt(newDoc);
    FromRoot(oldDoc);
    FromRoot(newDoc);
    CompareDecides(opts, oldDoc.children);
    same := Compare(opts, oldNode, newNode);
  }

  lemma FromRoot(t: Tree)
    ensures Remaining(t, []) == FlatAll(t.children, 1)
  {
  }

  // ----- what the comparison ignores

  /** The answer of the comparison for the nodes of an old and a new document. */
  ghost predicate Same(opts: Options, ts: seq<Tree>, us: seq<Tree>) {
    MatchAll(Filter(opts, FlatAll(ts, 1)), FlatAll(us, 1))
  }

  predicate PlaceIn(ts: seq<Tree>, path: Path, k: nat) {
    if path == [] then k <= |ts| else path[0] < |ts| && PlaceIn(ts[path[0]].children, path[1..], k)
  }

  /** The forest with a leaf put in front of the child k of the node at the path. */
  function WithLeaf(ts: seq<Tree>, path: Path, k: nat, leaf: Label): seq<Tree>
    requires PlaceIn(ts, path, k)
  {
    if path == [] then ts[..k] + [Tree(leaf, [])] + ts[k..]
    else
      var t := ts[path[0]];
      ts[path[0] := Tree(t.tag, WithLeaf(t.children, path[1..], k, leaf))]
  }

  lemma {:induction false} FlatConcat(a: seq<Tree>, b: seq<Tree>, d: nat)
    ensures FlatAll(a + b, d) == FlatAll(a, d) + FlatAll(b, d)
    decreases |a|
  {
    hide Flat;
    if a == [] {
      assert a + b == b;
    } else {
      assert (a + b)[1..] == a[1..] + b;
      FlatConcat(a[1..], b, d);
    }
  }

  /** The leaf adds its entry, somewhere. */
  lemma {:induction false} LeafEntry(ts: seq<Tree>, path: Path, k: nat, leaf: Label, d: nat)
    returns (before: seq<Entry>, after: seq<Entry>)
    requires PlaceIn(ts, path, k)
    ensures FlatAll(ts, d) == before + after
    ensures FlatAll(WithLeaf(ts, path, k, leaf), d) == before + [Entry(d + |path|, leaf)] + after
    decreases |path|
  {
    hide FlatAll;
    if path == [] {
      before, after := FlatAll(ts[..k], d), FlatAll(ts[k..], d);
      assert ts == ts[..k] + ts[k..];
      FlatConcat(ts[..k], ts[k..], d);
      FlatConcat(ts[..k] + [Tree(leaf, [])], ts[k..], d);
      FlatConcat(ts[..k], [Tree(leaf, [])], d);
      FlatOne(Tree(leaf, []), d);
      FlatNothing(d + 1);
    } else {
      var i, t := path[0], ts[path[0]];
      var grown := Tree(t.tag, WithLeaf(t.children, path[1..], k, leaf));
      var low, high := LeafEntry(t.children, path[1..], k, leaf, d + 1);
      var left, right, e := FlatAll(ts[..i], d), FlatAll(ts[i + 1..], d), [Entry(d, t.tag)];
      FlatAround(ts, i, t, d);
      FlatAround(ts[i := grown], i, grown, d);
      before, after := left + e + low, high + right;
      assert left + (e + (low + high)) + right == before + after;
      var one := [Entry(d + |path|, leaf)];
      assert left + (e + (low + one + high)) + right == before + one + after;
    }
  }

  lemma FlatOne(t: Tree, d: nat)
    ensures FlatAll([t], d) == [Entry(d, t.tag)] + FlatAll(t.children, d + 1)
  {
    assert [t][1..] == [];
  }

  lemma FlatAround(ts: seq<Tree>, i: nat, t: Tree, d: nat)
    requires i < |ts| && ts[i] == t
    ensures FlatAll(ts, d) ==
      FlatAll(ts[..i], d) + ([Entry(d, t.tag)] + FlatAll(t.children, d + 1)) + FlatAll(ts[i + 1..], d)
  {
    hide FlatAll;
    assert ts == (ts[..i] + [t]) + ts[i + 1..];
    FlatConcat(ts[..i] + [t], ts[i + 1..], d);
    FlatConcat(ts[..i], [t], d);
    FlatOne(t, d);
  }

  /** A comment, a processing instruction or a DOCTYPE anywhere in the old document changes no answer unless its kind
      is preserved, nor does data that is a single newline. Any other leaf turns every equal document unequal. */
  lemma LeafIgnored(opts: Options, ts: seq<Tree>, path: Path, k: nat, leaf: Label, us: seq<Tree>)
    requires PlaceIn(ts, path, k)
    ensures var before, after := Same(opts, ts, us), Same(opts, WithLeaf(ts, path, k, leaf), us);
      match leaf.kind
      case Comment => if opts.preserveComments then before ==> !after else after == before
      case Pi => if opts.preservePIs then before ==> !after else after == before
      case Doctype => if opts.preserveDTs then before ==> !after else after == before
      case Data => if leaf.value == ['\n'] then after == before else before ==> !after
      case _ => before ==> !after
  {
    hide Filter, FlatAll, MatchAll, WithLeaf;
    var before, after := LeafEntry(ts, path, k, leaf, 1);
    var e := Entry(1 + |path|, leaf);
    FilterConcat(opts, before, after);
    FilterConcat(opts, before + [e], after);
    FilterConcat(opts, before, [e]);
    FilterCons(opts, e, []);
    FilterNothing(opts);
    assert [e] + [] == [e];
    var some, others := Filter(opts, before), Filter(opts, after);
    assert Ignored(opts, leaf) ==> some + Filter(opts, [e]) == some;
    if Same(opts, ts, us) && !Ignored(opts, leaf) {
      MatchedLength(Filter(opts, FlatAll(ts, 1)), FlatAll(us, 1));
      MatchLength(Filter(opts, FlatAll(WithLeaf(ts, path, k, leaf), 1)), FlatAll(us, 1));
    }
  }

  lemma MatchedLength(a: seq<Entry>, b: seq<Entry>)
    requires MatchAll(a, b)
    ensures |a| == |b|
  {
  }

  /** And there is such an equal document whenever no kept node lies below an ignored one. */
  lemma SomeSame(opts: Options, ts: seq<Tree>)
    requires Clean(opts, ts)
    ensures Same(opts, ts, Prune(opts, ts))
  {
    hide MatchAll, Filter, FlatAll, SameAll, Prune, Clean;
    FilterAgainstPrune(opts, ts, 1);
    FlatDecides(Prune(opts, ts), Prune(opts, ts), 1);
    SameAllReflexive(Prune(opts, ts));
  }

  /** Runs the comparison without and with the leaf. */
  method CompareWithLeaf(opts: Options, oldDoc: Tree, newDoc: Tree, path: Path, k: nat, leaf: Label)
    returns (before: bool, after: bool)
    requires PlaceIn(oldDoc.children, path, k) && NoDocuments(oldDoc.children)
    requires NoDocuments(WithLeaf(oldDoc.children, path, k, leaf))
    ensures before == Same(opts, oldDoc.children, newDoc.children)
    ensures match leaf.kind
            case Comment => if opts.preserveComments then before ==> !after else after == before
            case Pi => if opts.preservePIs then before ==> !after else after == before
            case Doctype => if opts.preserveDTs then before ==> !after else after == before
            case Data => if leaf.value == ['\n'] then after == before else before ==> !after
            case _ => before ==> !after
  {
    hide Filter, FlatAll, MatchAll, WithLeaf, Prune, Clean, SameAll, NoDocuments;
    before := CompareXmlDocuments(opts, oldDoc, newDoc);
    after := CompareXmlDocuments(opts, Tree(oldDoc.tag, WithLeaf(oldDoc.children, path, k, leaf)), newDoc);
    LeafIgnored(opts, oldDoc.children, path, k, leaf, newDoc.children);
  }
}
