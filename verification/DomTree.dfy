/** A document tree and the cursor operations first_node, next_sibling and parent that the XML
    comparison and the EXI writer navigate it with. A cursor is the path of child indices. */
module DomTree {
  import opened Wrappers

  datatype Kind = Document | Element | Data | CData | Comment | Declaration | Doctype | Pi

  datatype Label = Label(kind: Kind, name: string, value: string, attrs: seq<(string, string)>)

  datatype Tree = Tree(tag: Label, children: seq<Tree>)

  type Path = seq<nat>

  predicate ValidPath(t: Tree, path: Path) {
    path == [] || (path[0] < |t.children| && ValidPath(t.children[path[0]], path[1..]))
  }

  function Sub(t: Tree, path: Path): Tree
    requires ValidPath(t, path)
  {
    if path == [] then t else Sub(t.children[path[0]], path[1..])
  }

  /** Nodes only below the root: append_node refuses a document node. */
  predicate NoDocuments(ts: seq<Tree>) {
    forall t :: t in ts ==> t.tag.kind != Document && NoDocuments(t.children)
  }

  function Init(path: Path): Path requires path != [] { path[..|path| - 1] }

  function Last(path: Path): nat requires path != [] { path[|path| - 1] }

  predicate HasChild(t: Tree, path: Path)
    requires ValidPath(t, path)
  {
    Sub(t, path).children != []
  }

  predicate HasSibling(t: Tree, path: Path)
    requires ValidPath(t, path) && path != []
  {
    ParentValid(t, path);
    Last(path) + 1 < |Sub(t, Init(path)).children|
  }

  lemma {:induction false} ParentValid(t: Tree, path: Path)
    requires ValidPath(t, path) && path != []
    ensures ValidPath(t, Init(path)) && Last(path) < |Sub(t, Init(path)).children|
    ensures Sub(t, path) == Sub(t, Init(path)).children[Last(path)]
    decreases |path|
  {
    if |path| > 1 {
      ParentValid(t.children[path[0]], path[1..]);
      assert Init(path)[1..] == Init(path[1..]);
    }
  }

  lemma {:induction false} ChildValid(t: Tree, path: Path, k: nat)
    requires ValidPath(t, path) && k < |Sub(t, path).children|
    ensures ValidPath(t, path + [k]) && Sub(t, path + [k]) == Sub(t, path).children[k]
    decreases |path|
  {
    if path == [] {
      assert (path + [k])[1..] == [];
    } else {
      ChildValid(t.children[path[0]], path[1..], k);
      assert (path + [k])[1..] == path[1..] + [k];
    }
  }

  function SiblingPath(path: Path): Path requires path != [] { Init(path) + [Last(path) + 1] }

  lemma SiblingValid(t: Tree, path: Path)
    requires ValidPath(t, path) && path != [] && HasSibling(t, path)
    ensures ValidPath(t, SiblingPath(path))
  {
    ParentValid(t, path);
    ChildValid(t, Init(path), Last(path) + 1);
  }

  // ----- preorder with depths

  datatype Entry = Entry(depth: nat, tag: Label)

  function Flat(t: Tree, d: nat): (es: seq<Entry>)
    ensures es != []
  {
    [Entry(d, t.tag)] + FlatAll(t.children, d + 1)
  }

  function FlatAll(ts: seq<Tree>, d: nat): seq<Entry> {
    if ts == [] then [] else Flat(ts[0], d) + FlatAll(ts[1..], d)
  }

  /** The entries behind the whole subtree at path, in a tree whose root has depth d. */
  function After(t: Tree, path: Path, d: nat): seq<Entry>
    requires ValidPath(t, path)
  {
    if path == [] then []
    else After(t.children[path[0]], path[1..], d + 1) + FlatAll(t.children[path[0] + 1..], d + 1)
  }

  /** The entries behind the node at path. */
  function Remaining(t: Tree, path: Path): seq<Entry>
    requires ValidPath(t, path)
  {
    FlatAll(Sub(t, path).children, |path| + 1) + After(t, path, 0)
  }

  lemma NoChild(t: Tree, path: Path)
    requires ValidPath(t, path) && !HasChild(t, path)
    ensures Remaining(t, path) == After(t, path, 0)
  {
  }

  lemma AfterRoot(t: Tree)
    ensures After(t, [], 0) == []
  {
  }

  lemma {:induction false} AfterSibling(t: Tree, path: Path, d: nat)
    requires ValidPath(t, path) && path != [] && HasSibling(t, path)
    ensures ValidPath(t, SiblingPath(path))
    ensures After(t, path, d) == Flat(Sub(t, SiblingPath(path)), d + |path|) + After(t, SiblingPath(path), d)
    decreases |path|
  {
    SiblingValid(t, path);
    if |path| == 1 {
      AfterTop(t, path[0], d);
      assert path == [path[0]] && SiblingPath(path) == [path[0] + 1];
      ParentValid(t, path);
    } else {
      hide FlatAll;
      var c, rest := t.children[path[0]], path[1..];
      assert Init(path)[1..] == Init(rest) && SiblingPath(path)[1..] == SiblingPath(rest);
      AfterSibling(c, rest, d + 1);
    }
  }

  lemma AfterTop(t: Tree, i: nat, d: nat)
    requires i + 1 < |t.children|
    ensures After(t, [i], d) == Flat(t.children[i + 1], d + 1) + After(t, [i + 1], d)
    ensures Sub(t, [i + 1]) == t.children[i + 1]
  {
    assert [i][1..] == [] && [i + 1][1..] == [];
    assert t.children[i + 1..][1..] == t.children[i + 2..];
  }

  lemma {:induction false} AfterLast(t: Tree, path: Path, d: nat)
    requires ValidPath(t, path) && path != [] && !HasSibling(t, path)
    ensures ValidPath(t, Init(path)) && After(t, path, d) == After(t, Init(path), d)
    decreases |path|
  {
    ParentValid(t, path);
    if |path| == 1 {
      assert t.children[path[0] + 1..] == [];
    } else {
      assert Init(path)[1..] == Init(path[1..]);
      AfterLast(t.children[path[0]], path[1..], d + 1);
    }
  }

  // ----- the three moves of a preorder walk

  /** Stepping to the first child. */
  lemma StepDown(t: Tree, path: Path)
    requires ValidPath(t, path) && HasChild(t, path)
    ensures ValidPath(t, path + [0])
    ensures Remaining(t, path) == [Entry(|path| + 1, Sub(t, path + [0]).tag)] + Remaining(t, path + [0])
  {
    hide After, FlatAll;
    ChildValid(t, path, 0);
    var kids, d := Sub(t, path).children, |path| + 1;
    AfterFirst(t, path, 0);
    FlatCons(kids, d);
    var first, below, beside := [Entry(d, kids[0].tag)], FlatAll(kids[0].children, d + 1), FlatAll(kids[1..], d);
    Assoc(first + below, beside, After(t, path, 0));
    Assoc(first, below, beside + After(t, path, 0));
  }

  lemma FlatCons(ts: seq<Tree>, d: nat)
    requires ts != []
    ensures FlatAll(ts, d) == ([Entry(d, ts[0].tag)] + FlatAll(ts[0].children, d + 1)) + FlatAll(ts[1..], d)
  {
  }

  lemma {:induction false} AfterFirst(t: Tree, path: Path, d: nat)
    requires ValidPath(t, path) && HasChild(t, path)
    ensures ValidPath(t, path + [0])
    ensures After(t, path + [0], d) == FlatAll(Sub(t, path).children[1..], d + |path| + 1) + After(t, path, d)
    decreases |path|
  {
    ChildValid(t, path, 0);
    if path == [] {
      assert (path + [0])[1..] == [];
    } else {
      assert (path + [0])[1..] == path[1..] + [0];
      AfterFirst(t.children[path[0]], path[1..], d + 1);
    }
  }

  /** Stepping to the next sibling of a node whose subtree is finished. */
  lemma StepAcross(t: Tree, path: Path)
    requires ValidPath(t, path) && path != [] && HasSibling(t, path)
    ensures ValidPath(t, SiblingPath(path))
    ensures After(t, path, 0) == [Entry(|path|, Sub(t, SiblingPath(path)).tag)] + Remaining(t, SiblingPath(path))
  {
    hide After, FlatAll;
    AfterSibling(t, path, 0);
    var next := SiblingPath(path);
    var e, kids := Entry(|path|, Sub(t, next).tag), FlatAll(Sub(t, next).children, |path| + 1);
    assert Flat(Sub(t, next), |path|) == [e] + kids;
    assert [e] + kids + After(t, next, 0) == [e] + (kids + After(t, next, 0));
  }

  /** Climbing from a last child. */
  lemma StepUp(t: Tree, path: Path)
    requires ValidPath(t, path) && path != [] && !HasSibling(t, path)
    ensures ValidPath(t, Init(path)) && After(t, path, 0) == After(t, Init(path), 0)
  {
    AfterLast(t, path, 0);
  }
}
