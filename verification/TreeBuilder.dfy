/** The XML builder as the consumer of the writer's event stream, and what survives the trip. */
module TreeBuilder {
  import opened Wrappers
  import opened DomTree
  import opened TreeWriter

  /** The tree with the subtree at path replaced. */
  function Replace(t: Tree, path: Path, n: Tree): Tree
    requires ValidPath(t, path)
  {
    if path == [] then n
    else t.(children := t.children[path[0] := Replace(t.children[path[0]], path[1..], n)])
  }

  function BlankNode(name: string): Tree {
    Tree(Label(if name == "" then Data else Element, name, "", []), [])
  }

  function SetValue(n: Tree, value: string): Tree { n.(tag := n.tag.(value := value)) }

  function Append(n: Tree, child: Tree): Tree { n.(children := n.children + [child]) }

  // ----- the builder

  class XMLBuilder {
    var doc: Tree
    /** The current node; ending the document itself leaves none. */
    var node: Option<Path>
    /** An attribute was announced and its value is still to come. */
    var pending: bool

    ghost predicate Valid()
      reads this
    {
      ValidState(Now())
    }

    ghost function Now(): State
      reads this
    {
      State(doc, node, pending)
    }

    constructor ()
      ensures Valid() && Now() == At(EmptyDocument(), [])
    {
      doc, node, pending := EmptyDocument(), Some([]), false;
    }

    /** A new node with this name becomes the last child of the current one, and the current one itself. Everything
        else stays: putting the old current node back gives the old document. */
    method StartElement(name: QName)
      requires Valid() && node.Some?
      modifies this
      ensures Valid() && Now() == Step(old(Now()), Start(name))
      ensures node.Some? && node.value != [] && Init(node.value) == old(node).value && pending == old(pending)
      ensures Sub(doc, node.value) == BlankNode(JoinName(name))
      ensures ValidPath(doc, old(node).value) && Last(node.value) + 1 == |Sub(doc, old(node).value).children|
      ensures Sub(doc, old(node).value) == Append(Sub(old(doc), old(node).value), BlankNode(JoinName(name)))
      ensures Replace(doc, old(node).value, Sub(old(doc), old(node).value)) == old(doc)
    {
      var path := node.value;
      var current := Sub(doc, path);
      var child := BlankNode(JoinName(name));
      ReplaceValid(doc, path, Append(current, child));
      ReplaceTwice(doc, path, Append(current, child), current);
      ReplaceSelf(doc, path);
      doc := Replace(doc, path, Append(current, child));
      ChildValid(doc, path, |current.children|);
      node := Some(path + [|current.children|]);
      assert Init(node.value) == path;
    }

    /** The cursor climbs to its parent. */
    method EndElement()
      requires Valid() && node.Some?
      modifies this
      ensures Valid() && Now() == Step(old(Now()), End)
      ensures doc == old(doc) && pending == old(pending)
      ensures if old(node).value == [] then node.None? else node == Some(Init(old(node).value))
    {
      if node.value == [] {
        node := None;
      } else {
        ParentValid(doc, node.value);
        node := Some(Init(node.value));
      }
    }

    /** An attribute is made and waits for its value. The current node does not get it, since append_attribute
        returns before it links an attribute without a parent. */
    method Attribute(name: QName)
      requires Valid() && node.Some? && !pending
      modifies this
      ensures Valid() && Now() == Step(old(Now()), Event.Attribute(name))
      ensures doc == old(doc) && node == old(node) && pending
    {
      pending := true;
    }

    /** Character data is the value of the waiting attribute, or else becomes the value of the current node; no
        data node is made for it. */
    method StringData(value: string)
      requires Valid() && (pending || node.Some?)
      modifies this
      ensures Valid() && Now() == Step(old(Now()), Event.StringData(value))
      ensures node == old(node) && !pending && (old(pending) ==> doc == old(doc))
      ensures !old(pending) ==>
        var was := Sub(old(doc), node.value);
        && Sub(doc, node.value) == Tree(Label(was.tag.kind, was.tag.name, value, was.tag.attrs), was.children)
        && Replace(doc, node.value, was) == old(doc)
    {
      if pending {
        pending := false;
        return;
      }
      var path := node.value;
      ReplaceValid(doc, path, SetValue(Sub(doc, path), value));
      ReplaceTwice(doc, path, SetValue(Sub(doc, path), value), Sub(doc, path));
      ReplaceSelf(doc, path);
      doc := Replace(doc, path, SetValue(Sub(doc, path), value));
    }
  }

  function EmptyDocument(): Tree { Tree(Label(Document, "", "", []), []) }

  // ----- a run of the builder on values

  /** Broken when an assertion of the builder fails or it follows a null cursor. */
  datatype State = State(doc: Tree, node: Option<Path>, pending: bool) | Broken

  function At(doc: Tree, node: Path): State { State(doc, Some(node), false) }

  ghost predicate ValidState(st: State) { st.State? && st.node.Some? ==> ValidPath(st.doc, st.node.value) }

  function Step(st: State, e: Event): (r: State)
    requires ValidState(st)
    ensures ValidState(r)
  {
    if st.Broken? then Broken
    else if e.StringData? && st.pending then st.(pending := false)
    else if st.node.None? then Broken
    else
      var node, current := st.node.value, Sub(st.doc, st.node.value);
      match e
      case Start(name) =>
        var grown := Append(current, BlankNode(JoinName(name)));
        ReplaceValid(st.doc, node, grown);
        ChildValid(Replace(st.doc, node, grown), node, |current.children|);
        State(Replace(st.doc, node, grown), Some(node + [|current.children|]), st.pending)
      case End =>
        if node == [] then st.(node := None)
        else ParentValid(st.doc, node); st.(node := Some(Init(node)))
      case Attribute(_) => if st.pending then Broken else st.(pending := true)
      case StringData(value) =>
        ReplaceValid(st.doc, node, SetValue(current, value));
        st.(doc := Replace(st.doc, node, SetValue(current, value)))
  }

  function Run(st: State, es: seq<Event>): (r: State)
    requires ValidState(st)
    ensures ValidState(r)
    decreases |es|
  {
    if es == [] then st else Run(Step(st, es[0]), es[1..])
  }

  // ----- replacing subtrees

  lemma {:induction false} ReplaceValid(t: Tree, path: Path, n: Tree)
    requires ValidPath(t, path)
    ensures ValidPath(Replace(t, path, n), path) && Sub(Replace(t, path, n), path) == n
    decreases |path|
  {
    if path != [] { ReplaceValid(t.children[path[0]], path[1..], n); }
  }

  lemma {:induction false} ReplaceTwice(t: Tree, path: Path, a: Tree, b: Tree)
    requires ValidPath(t, path)
    ensures ValidPath(Replace(t, path, a), path) && Replace(Replace(t, path, a), path, b) == Replace(t, path, b)
    decreases |path|
  {
    if path != [] {
      var i := path[0];
      ReplaceTwice(t.children[i], path[1..], a, b);
      var kids := t.children;
      assert kids[i := Replace(kids[i], path[1..], a)][i := Replace(kids[i], path[1..], b)] ==
        kids[i := Replace(kids[i], path[1..], b)];
    }
  }

  /** Replacing the child k of the node at path replaces that node by one with the new child. */
  lemma {:induction false} ReplaceChild(t: Tree, path: Path, k: nat, c: Tree)
    requires ValidPath(t, path) && k < |Sub(t, path).children|
    ensures ValidPath(t, path + [k])
    ensures Replace(t, path + [k], c) == Replace(t, path, Sub(t, path).(children := Sub(t, path).children[k := c]))
    decreases |path|
  {
    ChildValid(t, path, k);
    if path == [] {
      assert (path + [k])[1..] == [];
    } else {
      assert (path + [k])[1..] == path[1..] + [k];
      ReplaceChild(t.children[path[0]], path[1..], k, c);
    }
  }

  // ----- what a node becomes when it takes in the events of some trees

  function Absorb(n: Tree, ts: seq<Tree>): Tree
    decreases ts, 0
  {
    if ts == [] then n else Absorb(AbsorbOne(n, ts[0]), ts[1..])
  }

  /** Data overwrites the value; anything else becomes a new last child. */
  function AbsorbOne(n: Tree, t: Tree): Tree
    decreases t, 1
  {
    if t.tag.kind == Data then Absorb(SetValue(n, t.tag.value), t.children)
    else Append(n, Rebuilt(t))
  }

  function Rebuilt(t: Tree): Tree
    decreases t, 0
  {
    Absorb(BlankNode(JoinName(SplitName(t.tag.name))), t.children)
  }

  lemma RunCons(st: State, e: Event, es: seq<Event>)
    requires ValidState(st)
    ensures Run(st, [e] + es) == Run(Step(st, e), es)
  {
    assert ([e] + es)[1..] == es;
  }

  lemma AtNode(doc: Tree, node: Path, n: Tree)
    requires ValidPath(doc, node)
    ensures ValidState(At(Replace(doc, node, n), node))
  {
    ReplaceValid(doc, node, n);
  }

  /** Feeding the events of some trees to the builder changes only the current node, which absorbs
      them, and leaves the cursor where it was. */
  lemma {:induction false} RunEvents(doc: Tree, node: Path, ts: seq<Tree>, more: seq<Event>)
    requires ValidPath(doc, node)
    ensures ValidState(At(Replace(doc, node, Absorb(Sub(doc, node), ts)), node))
    ensures Run(At(doc, node), EventsAll(ts) + more) ==
      Run(At(Replace(doc, node, Absorb(Sub(doc, node), ts)), node), more)
    decreases ts, 1
  {
    hide Run, Sub, Replace, Events, AbsorbOne;
    AtNode(doc, node, Absorb(Sub(doc, node), ts));
    if ts == [] {
      ReplaceSelf(doc, node);
      assert EventsAll(ts) + more == more;
    } else {
      var n, one := Sub(doc, node), AbsorbOne(Sub(doc, node), ts[0]);
      var rest := EventsAll(ts[1..]) + more;
      assert EventsAll(ts) + more == Events(ts[0]) + rest;
      RunTree(doc, node, ts[0], rest);
      ReplaceValid(doc, node, one);
      RunEvents(Replace(doc, node, one), node, ts[1..], more);
      ReplaceTwice(doc, node, one, Absorb(one, ts[1..]));
    }
  }

  lemma {:induction false} ReplaceSelf(t: Tree, path: Path)
    requires ValidPath(t, path)
    ensures Replace(t, path, Sub(t, path)) == t
    decreases |path|
  {
    if path != [] {
      ReplaceSelf(t.children[path[0]], path[1..]);
      assert t.children[path[0] := t.children[path[0]]] == t.children;
    }
  }

  lemma {:induction false} RunTree(doc: Tree, node: Path, t: Tree, more: seq<Event>)
    requires ValidPath(doc, node)
    ensures ValidState(At(Replace(doc, node, AbsorbOne(Sub(doc, node), t)), node))
    ensures Run(At(doc, node), Events(t) + more) ==
      Run(At(Replace(doc, node, AbsorbOne(Sub(doc, node), t)), node), more)
    decreases t, 0
  {
    hide Run, Sub, Replace, EventsAll, Absorb;
    var n := Sub(doc, node);
    AtNode(doc, node, AbsorbOne(n, t));
    var attrs := Ordered(t.tag.attrs);
    if t.tag.kind == Data {
      var valued := SetValue(n, t.tag.value);
      EventsOfData(t, more);
      AttributesLost(doc, node, attrs, [StringData(t.tag.value)] + (EventsAll(t.children) + more));
      RunCons(At(doc, node), StringData(t.tag.value), EventsAll(t.children) + more);
      ReplaceValid(doc, node, valued);
      RunEvents(Replace(doc, node, valued), node, t.children, more);
      ReplaceTwice(doc, node, valued, Absorb(valued, t.children));
    } else {
      var name := SplitName(t.tag.name);
      var rest := [End] + more;
      EventsOfElement(t, more);
      RunCons(At(doc, node), Start(name), AttributeEvents(attrs) + (EventsAll(t.children) + rest));
      var blank := BlankNode(JoinName(name));
      var k := |n.children|;
      ReplaceValid(doc, node, Append(n, blank));
      var doc1 := Replace(doc, node, Append(n, blank));
      ChildValid(doc1, node, k);
      AttributesLost(doc1, node + [k], attrs, EventsAll(t.children) + rest);
      RunEvents(doc1, node + [k], t.children, rest);
      ReplaceChild(doc1, node, k, Rebuilt(t));
      assert (n.children + [blank])[k := Rebuilt(t)] == n.children + [Rebuilt(t)];
      ReplaceTwice(doc, node, Append(n, blank), Append(n, Rebuilt(t)));
      EndStep(Replace(doc, node, Append(n, Rebuilt(t))), node, k, more);
    }
  }

  lemma EventsOfData(t: Tree, more: seq<Event>)
    requires t.tag.kind == Data
    ensures Events(t) + more ==
      AttributeEvents(Ordered(t.tag.attrs)) + ([StringData(t.tag.value)] + (EventsAll(t.children) + more))
  {
    hide EventsAll, AttributeEvents, Ordered;
    var a, d := AttributeEvents(Ordered(t.tag.attrs)), [StringData(t.tag.value)];
    assert Events(t) == (a + d) + EventsAll(t.children);
    Assoc(a + d, EventsAll(t.children), more);
    Assoc(a, d, EventsAll(t.children) + more);
  }

  lemma EventsOfElement(t: Tree, more: seq<Event>)
    requires t.tag.kind != Data
    ensures Events(t) + more == [Start(SplitName(t.tag.name))] +
      (AttributeEvents(Ordered(t.tag.attrs)) + (EventsAll(t.children) + ([End] + more)))
  {
    hide EventsAll, AttributeEvents, Ordered;
    var s, a := [Start(SplitName(t.tag.name))], AttributeEvents(Ordered(t.tag.attrs));
    assert Events(t) == s + a + EventsAll(t.children) + [End];
    Assoc(s + a + EventsAll(t.children), [End], more);
    Assoc(s + a, EventsAll(t.children), [End] + more);
    Assoc(s, a, EventsAll(t.children) + ([End] + more));
  }

  /** An attribute leaves no trace in the document. */
  lemma {:induction false} AttributesLost(doc: Tree, node: Path, attrs: seq<(string, string)>, more: seq<Event>)
    requires ValidPath(doc, node)
    ensures Run(At(doc, node), AttributeEvents(attrs) + more) == Run(At(doc, node), more)
    decreases |attrs|
  {
    hide Run, Sub, Replace;
    if attrs == [] {
      assert AttributeEvents(attrs) + more == more;
    } else {
      var a, d := Event.Attribute(SplitName(attrs[0].0)), StringData(attrs[0].1);
      var rest := AttributeEvents(attrs[1..]) + more;
      assert AttributeEvents(attrs) + more == [a] + ([d] + rest);
      RunCons(At(doc, node), a, [d] + rest);
      RunCons(State(doc, Some(node), true), d, rest);
      AttributesLost(doc, node, attrs[1..], more);
    }
  }

  lemma EndStep(doc: Tree, node: Path, k: nat, more: seq<Event>)
    requires ValidPath(doc, node) && ValidPath(doc, node + [k])
    ensures Run(At(doc, node + [k]), [End] + more) == Run(At(doc, node), more)
  {
    RunCons(At(doc, node + [k]), End, more);
    assert Init(node + [k]) == node;
  }

  /** Building from the writer's whole stream: the cursor is back at the document, which absorbed
      the trees that were written. */
  lemma BuildFromStream(doc: Tree)
    ensures Run(At(EmptyDocument(), []), EventsAll(doc.children)) == At(Absorb(EmptyDocument(), doc.children), [])
  {
    hide Absorb, EventsAll;
    RunEvents(EmptyDocument(), [], doc.children, []);
    assert EventsAll(doc.children) + [] == EventsAll(doc.children);
  }

  /** Writes a document and builds another one from the events. */
  method WriteAndBuild(doc: Tree) returns (result: Tree)
    ensures result == Absorb(EmptyDocument(), doc.children)
  {
    hide Absorb, Run, Step, Replace, Sub, Append, SetValue, BlankNode, JoinName, EventsAll;
    var writer := new WriterImpl(doc);
    writer.Parse();
    var es := writer.events;
    var builder := new XMLBuilder();
    BuildFromStream(doc);
    assert es[0..] == es;
    for i := 0 to |es|
      invariant fresh(builder) && builder.Valid()
      invariant Run(builder.Now(), es[i..]) == At(Absorb(EmptyDocument(), doc.children), [])
    {
      ghost var st := builder.Now();
      assert es[i..] == [es[i]] + es[i + 1..];
      RunCons(st, es[i], es[i + 1..]);
      StepWorks(st, es[i], es[i + 1..]);
      match es[i] {
        case Start(name) => builder.StartElement(name);
        case End => builder.EndElement();
        case Attribute(name) => builder.Attribute(name);
        case StringData(value) => builder.StringData(value);
      }
    }
    RunNothing(builder.Now());
    result := builder.doc;
  }

  lemma RunNothing(st: State)
    requires ValidState(st)
    ensures Run(st, []) == st
  {
  }

  lemma {:induction false} BrokenStays(es: seq<Event>)
    ensures Run(Broken, es) == Broken
    decreases |es|
  {
    if es != [] { BrokenStays(es[1..]); }
  }

  /** On a stream that does not break the builder every event finds what it needs. */
  lemma StepWorks(st: State, e: Event, more: seq<Event>)
    requires st.State? && ValidState(st) && Run(Step(st, e), more) != Broken
    ensures st.node.Some? || (e.StringData? && st.pending)
    ensures e.Attribute? ==> !st.pending
  {
    BrokenStays(more);
  }

  // ----- what survives

  /** Elements without value or attributes whose names do not start with a colon, all the way down. */
  predicate Faithful(ts: seq<Tree>) {
    if ts == [] then true
    else
      var tag := ts[0].tag;
      && tag.kind == Element && tag.name != "" && tag.name[0] != ':' && tag.value == "" && tag.attrs == []
      && Faithful(ts[0].children)
      && Faithful(ts[1..])
  }

  function RebuiltAll(ts: seq<Tree>): seq<Tree> {
    if ts == [] then [] else [Rebuilt(ts[0])] + RebuiltAll(ts[1..])
  }

  predicate NoData(ts: seq<Tree>) {
    if ts == [] then true else ts[0].tag.kind != Data && NoData(ts[0].children) && NoData(ts[1..])
  }

  function Nodes(ts: seq<Tree>): nat {
    if ts == [] then 0 else 1 + Nodes(ts[0].children) + Nodes(ts[1..])
  }

  function OtherNodes(ts: seq<Tree>): nat {
    if ts == [] then 0
    else (if ts[0].tag.kind == Data then 0 else 1) + OtherNodes(ts[0].children) + OtherNodes(ts[1..])
  }

  lemma {:induction false} NodesConcat(a: seq<Tree>, b: seq<Tree>)
    ensures Nodes(a + b) == Nodes(a) + Nodes(b)
    decreases |a|
  {
    if a == [] {
      assert a + b == b;
    } else {
      assert (a + b)[1..] == a[1..] + b;
      NodesConcat(a[1..], b);
    }
  }

  lemma {:induction false} OtherNodesBound(ts: seq<Tree>)
    ensures OtherNodes(ts) <= Nodes(ts)
    ensures OtherNodes(ts) == Nodes(ts) ==> NoData(ts)
    decreases ts
  {
    if ts != [] {
      OtherNodesBound(ts[0].children);
      OtherNodesBound(ts[1..]);
    }
  }

  /** Absorbing adds one node for every node that is not data. */
  lemma {:induction false} AbsorbNodes(n: Tree, ts: seq<Tree>)
    ensures Nodes(Absorb(n, ts).children) == Nodes(n.children) + OtherNodes(ts)
    decreases ts
  {
    if ts != [] {
      var t := ts[0];
      if t.tag.kind == Data {
        AbsorbNodes(SetValue(n, t.tag.value), t.children);
      } else {
        AbsorbNodes(BlankNode(JoinName(SplitName(t.tag.name))), t.children);
        NodesConcat(n.children, [Rebuilt(t)]);
        assert [Rebuilt(t)][1..] == [];
      }
      AbsorbNodes(AbsorbOne(n, t), ts[1..]);
    }
  }

  lemma AbsorbNext(n: Tree, ts: seq<Tree>)
    requires ts != [] && NoData(ts)
    ensures Absorb(n, ts) == Absorb(Append(n, Rebuilt(ts[0])), ts[1..])
    ensures NoData(ts[1..]) && RebuiltAll(ts) == [Rebuilt(ts[0])] + RebuiltAll(ts[1..])
  {
    hide Rebuilt;
  }

  lemma AbsorbNone(n: Tree)
    ensures Absorb(n, []) == n && RebuiltAll([]) == []
  {
  }

  lemma {:induction false} AbsorbElements(n: Tree, ts: seq<Tree>)
    requires NoData(ts)
    ensures Absorb(n, ts) == Tree(n.tag, n.children + RebuiltAll(ts))
    decreases |ts|
  {
    hide Absorb, Rebuilt, RebuiltAll, NoData;
    if ts == [] {
      AbsorbNone(n);
      assert n.children + [] == n.children;
    } else {
      AbsorbNext(n, ts);
      AbsorbElements(Append(n, Rebuilt(ts[0])), ts[1..]);
      assert n.children + [Rebuilt(ts[0])] + RebuiltAll(ts[1..]) == n.children + RebuiltAll(ts);
    }
  }

  lemma NoneSame()
    ensures RebuiltAll([]) == [] && Faithful([])
  {
  }

  lemma SameNext(ts: seq<Tree>)
    requires ts != [] && NoData(ts)
    ensures RebuiltAll(ts) == [Rebuilt(ts[0])] + RebuiltAll(ts[1..])
    ensures NoData(ts[0].children) && NoData(ts[1..]) && ts[0].tag.kind != Data
    ensures var tag := ts[0].tag;
      Faithful(ts) <==>
        (&& tag.kind == Element && tag.name != "" && tag.name[0] != ':' && tag.value == "" && tag.attrs == []
        && Faithful(ts[0].children) && Faithful(ts[1..]))
  {
    hide Rebuilt;
  }

  lemma {:induction false} RebuiltSame(ts: seq<Tree>)
    requires NoData(ts)
    ensures RebuiltAll(ts) == ts <==> Faithful(ts)
    decreases ts
  {
    hide RebuiltAll, Rebuilt, NoData, Faithful, SplitName, JoinName;
    if ts == [] {
      NoneSame();
    } else {
      var t, rest := ts[0], ts[1..];
      SameNext(ts);
      RebuiltSame(t.children);
      RebuiltSame(rest);
      RebuiltIs(t);
      NameRoundTrip(t.tag.name);
      ConsSame(Rebuilt(t), t, RebuiltAll(rest), rest);
      assert ts == [t] + rest;
    }
  }

  lemma ConsSame(a: Tree, b: Tree, as_: seq<Tree>, bs: seq<Tree>)
    ensures [a] + as_ == [b] + bs <==> a == b && as_ == bs
  {
    if [a] + as_ == [b] + bs {
      assert ([a] + as_)[0] == a && ([b] + bs)[0] == b;
      assert ([a] + as_)[1..] == as_ && ([b] + bs)[1..] == bs;
    }
  }

  lemma RebuiltIs(t: Tree)
    requires NoData(t.children)
    ensures Rebuilt(t) == Tree(BlankNode(JoinName(SplitName(t.tag.name))).tag, RebuiltAll(t.children))
  {
    hide SplitName, JoinName;
    var blank := BlankNode(JoinName(SplitName(t.tag.name)));
    AbsorbElements(blank, t.children);
    assert [] + RebuiltAll(t.children) == RebuiltAll(t.children);
  }

  /** Writing a document and building from its events gives the document back exactly when it is
      faithful: data nodes are folded into their parents, values, attributes and other node kinds
      are lost, and a leading colon is dropped from a name. */
  lemma SurvivesExactly(ts: seq<Tree>)
    ensures Absorb(EmptyDocument(), ts) == Tree(EmptyDocument().tag, ts) <==> Faithful(ts)
  {
    hide Absorb, RebuiltAll, NoData;
    var doc := EmptyDocument();
    AbsorbNodes(doc, ts);
    OtherNodesBound(ts);
    NothingCounted();
    if Faithful(ts) { FaithfulNoData(ts); }
    if Absorb(doc, ts) == Tree(doc.tag, ts) || Faithful(ts) {
      AbsorbElements(doc, ts);
      RebuiltSame(ts);
      assert [] + RebuiltAll(ts) == RebuiltAll(ts);
    }
  }

  lemma NothingCounted()
    ensures Nodes([]) == 0
  {
  }

  lemma {:induction false} FaithfulNoData(ts: seq<Tree>)
    requires Faithful(ts)
    ensures NoData(ts)
    decreases ts
  {
    if ts != [] {
      FaithfulNoData(ts[0].children);
      FaithfulNoData(ts[1..]);
    }
  }

  // ----- what becomes of character data

  /** Data nodes without children, as the parser makes them. */
  predicate LeafData(ts: seq<Tree>) {
    forall t :: t in ts && t.tag.kind == Data ==> t.children == []
  }

  /** The value of the last data node, or v when there is none. */
  function LastData(ts: seq<Tree>, v: string): string {
    if ts == [] then v else LastData(ts[1..], if ts[0].tag.kind == Data then ts[0].tag.value else v)
  }

  function WithoutData(ts: seq<Tree>): seq<Tree> {
    if ts == [] then [] else (if ts[0].tag.kind == Data then [] else [ts[0]]) + WithoutData(ts[1..])
  }

  /** The node that is written into keeps only the last of its data, and gets all its other children. */
  lemma {:induction false} LastDataWins(n: Tree, ts: seq<Tree>)
    requires LeafData(ts)
    ensures Absorb(n, ts).tag == Label(n.tag.kind, n.tag.name, LastData(ts, n.tag.value), n.tag.attrs)
    ensures Absorb(n, ts).children == n.children + RebuiltAll(WithoutData(ts))
    decreases |ts|
  {
    hide Rebuilt;
    if ts != [] {
      var t := ts[0];
      assert t in ts;
      forall u | u in ts[1..] ensures u in ts { }
      if t.tag.kind == Data {
        AbsorbNone(SetValue(n, t.tag.value));
        LastDataWins(SetValue(n, t.tag.value), ts[1..]);
        assert [] + WithoutData(ts[1..]) == WithoutData(ts[1..]);
      } else {
        LastDataWins(Append(n, Rebuilt(t)), ts[1..]);
        assert [t] + WithoutData(ts[1..]) == WithoutData(ts);
        assert ([t] + WithoutData(ts[1..]))[1..] == WithoutData(ts[1..]);
        assert n.children + [Rebuilt(t)] + RebuiltAll(WithoutData(ts[1..])) ==
          n.children + ([Rebuilt(t)] + RebuiltAll(WithoutData(ts[1..])));
      }
    }
  }
}
