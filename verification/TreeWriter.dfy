/** The EXI writer's traversal turns a tree into an event stream; the XML builder turns an event
    stream back into a tree. */
module TreeWriter {
  import opened DomTree

  /** A qualified name as the writer hands it over: the parts around the first colon. */
  datatype QName = QName(prefix: string, localName: string)

  datatype Event = Start(name: QName) | End | Attribute(name: QName) | StringData(value: string)

  /** makeQName without the namespace lookup. */
  function SplitName(name: string): QName {
    var pos := Colon(name, 0);
    if pos == |name| then QName("", name) else QName(name[..pos], name[pos + 1..])
  }

  /** The position of the first colon from i on, or the length of the name. */
  function Colon(name: string, i: nat): (p: nat)
    requires i <= |name|
    ensures i <= p <= |name| && (p < |name| ==> name[p] == ':')
    ensures forall k :: i <= k < p ==> name[k] != ':'
    decreases |name| - i
  {
    if i == |name| || name[i] == ':' then i else Colon(name, i + 1)
  }

  /** internQName. */
  function JoinName(q: QName): string {
    if q.prefix == "" then q.localName else q.prefix + ":" + q.localName
  }

  /** A name survives being split and joined unless it starts with a colon. */
  lemma NameRoundTrip(name: string)
    ensures JoinName(SplitName(name)) == name <==> (name == "" || name[0] != ':')
  {
    var pos := Colon(name, 0);
    if pos < |name| {
      assert name == name[..pos] + ":" + name[pos + 1..];
      if pos == 0 { assert |SplitName(name).localName| < |name|; }
    }
  }

  // ----- the event stream of a tree

  function StartOf(tag: Label): seq<Event> { if tag.kind == Data then [] else [Start(SplitName(tag.name))] }

  function EndOf(tag: Label): seq<Event> { if tag.kind == Data then [] else [End] }

  /** Declares a namespace: xmlns, or xmlns: and a prefix. */
  predicate IsNamespace(name: string) {
    name == "xmlns" || (|name| > 5 && name[..6] == "xmlns:")
  }

  /** The order of the names by their characters. */
  predicate Before(a: string, b: string) {
    a == "" || (b != "" && (a[0] < b[0] || (a[0] == b[0] && Before(a[1..], b[1..]))))
  }

  function Inserted(a: (string, string), attrs: seq<(string, string)>): seq<(string, string)> {
    if attrs == [] || Before(a.0, attrs[0].0) then [a] + attrs else [attrs[0]] + Inserted(a, attrs[1..])
  }

  /** The attributes that declare no namespace, sorted by name. */
  function Ordered(attrs: seq<(string, string)>): seq<(string, string)> {
    if attrs == [] then []
    else if IsNamespace(attrs[0].0) then Ordered(attrs[1..])
    else Inserted(attrs[0], Ordered(attrs[1..]))
  }

  function AttributeEvents(attrs: seq<(string, string)>): seq<Event> {
    if attrs == [] then []
    else [Attribute(SplitName(attrs[0].0)), StringData(attrs[0].1)] + AttributeEvents(attrs[1..])
  }

  function DataOf(tag: Label): seq<Event> { if tag.kind == Data then [StringData(tag.value)] else [] }

  /** What a node contributes between its start and its children. */
  function ContentOf(tag: Label): seq<Event> { AttributeEvents(Ordered(tag.attrs)) + DataOf(tag) }

  function Events(t: Tree): seq<Event> {
    StartOf(t.tag) + ContentOf(t.tag) + EventsAll(t.children) + EndOf(t.tag)
  }

  function EventsAll(ts: seq<Tree>): seq<Event> {
    if ts == [] then [] else Events(ts[0]) + EventsAll(ts[1..])
  }

  /** The events still to come when the contents of the node at path are finished. */
  function Closing(t: Tree, path: Path): seq<Event>
    requires ValidPath(t, path)
  {
    if path == [] then []
    else
      var c := t.children[path[0]];
      Closing(c, path[1..]) + EndOf(c.tag) + EventsAll(t.children[path[0] + 1..])
  }

  /** The events still to come when the node at path was just started and its data written. */
  function Pending(t: Tree, path: Path): seq<Event>
    requires ValidPath(t, path)
  {
    EventsAll(Sub(t, path).children) + Closing(t, path)
  }

  // Closing as seen from the last step of the path

  lemma {:induction false} ClosingLast(t: Tree, path: Path)
    requires ValidPath(t, path) && path != []
    ensures ValidPath(t, Init(path)) && Last(path) < |Sub(t, Init(path)).children|
    ensures Closing(t, path) == EndOf(Sub(t, path).tag) +
      (EventsAll(Sub(t, Init(path)).children[Last(path) + 1..]) + Closing(t, Init(path)))
    decreases |path|
  {
    hide EndOf, EventsAll;
    ParentValid(t, path);
    if |path| == 1 {
      assert path[1..] == [];
      var e, more := EndOf(t.children[path[0]].tag), EventsAll(t.children[path[0] + 1..]);
      assert [] + e + more == e + (more + []);
    } else {
      var c, rest := t.children[path[0]], path[1..];
      ClosingLast(c, rest);
      assert Init(path)[1..] == Init(rest);
      var e, a, b := EndOf(Sub(t, path).tag), EventsAll(Sub(t, Init(path)).children[Last(path) + 1..]),
        Closing(c, Init(rest));
      var f, g := EndOf(c.tag), EventsAll(t.children[path[0] + 1..]);
      Regroup(e, a, b, f, g);
    }
  }

  lemma Regroup(e: seq<Event>, a: seq<Event>, b: seq<Event>, f: seq<Event>, g: seq<Event>)
    ensures (e + (a + b)) + f + g == e + (a + (b + f + g))
  {
  }

  lemma Group(a: seq<Event>, b: seq<Event>, c: seq<Event>, d: seq<Event>, e: seq<Event>, f: seq<Event>)
    ensures ((a + b + c + d) + e) + f == (a + b) + (c + (d + (e + f)))
  {
  }

  lemma EventsParts(ts: seq<Tree>)
    requires ts != []
    ensures EventsAll(ts) ==
      (StartOf(ts[0].tag) + ContentOf(ts[0].tag) + EventsAll(ts[0].children) + EndOf(ts[0].tag)) + EventsAll(ts[1..])
  {
  }

  /** The first child starts. */
  lemma DownEvents(t: Tree, path: Path)
    requires ValidPath(t, path) && HasChild(t, path)
    ensures ValidPath(t, path + [0])
    ensures Pending(t, path) == StartOf(Sub(t, path + [0]).tag) + ContentOf(Sub(t, path + [0]).tag) +
      Pending(t, path + [0])
  {
    hide Closing, EventsAll, StartOf, ContentOf, EndOf, Sub;
    ChildValid(t, path, 0);
    ClosingLast(t, path + [0]);
    assert Init(path + [0]) == path;
    var kids := Sub(t, path).children;
    EventsParts(kids);
    Group(StartOf(kids[0].tag), ContentOf(kids[0].tag), EventsAll(kids[0].children), EndOf(kids[0].tag),
      EventsAll(kids[1..]), Closing(t, path));
  }

  /** A finished node ends and its sibling starts. */
  lemma AcrossEvents(t: Tree, path: Path)
    requires ValidPath(t, path) && path != [] && HasSibling(t, path)
    ensures ValidPath(t, SiblingPath(path))
    ensures Closing(t, path) == EndOf(Sub(t, path).tag)
      + (StartOf(Sub(t, SiblingPath(path)).tag) + ContentOf(Sub(t, SiblingPath(path)).tag) +
        Pending(t, SiblingPath(path)))
  {
    hide Closing, EventsAll, StartOf, ContentOf, EndOf, Sub;
    SiblingValid(t, path);
    ParentValid(t, path);
    ChildValid(t, Init(path), Last(path) + 1);
    ClosingLast(t, path);
    ClosingLast(t, SiblingPath(path));
    assert Init(SiblingPath(path)) == Init(path) && Last(SiblingPath(path)) == Last(path) + 1;
    var kids, k := Sub(t, Init(path)).children, Last(path) + 1;
    EventsParts(kids[k..]);
    assert kids[k..][1..] == kids[k + 1..];
    var s := kids[k];
    Group(StartOf(s.tag), ContentOf(s.tag), EventsAll(s.children), EndOf(s.tag), EventsAll(kids[k + 1..]),
      Closing(t, Init(path)));
  }

  /** A finished last child ends; its parent is finished too. */
  lemma UpEvents(t: Tree, path: Path)
    requires ValidPath(t, path) && path != [] && !HasSibling(t, path)
    ensures ValidPath(t, Init(path)) && Closing(t, path) == EndOf(Sub(t, path).tag) + Closing(t, Init(path))
  {
    hide Closing, EndOf, Sub;
    ParentValid(t, path);
    ClosingLast(t, path);
    assert Sub(t, Init(path)).children[Last(path) + 1..] == [];
    assert [] + Closing(t, Init(path)) == Closing(t, Init(path));
  }

  // ----- the writer

  class WriterImpl {
    const doc: Tree
    var path: Path
    var depth: int
    var events: seq<Event>

    ghost predicate Valid()
      reads this
    {
      ValidPath(doc, path) && depth == |path|
    }

    constructor (doc: Tree)
      ensures this.doc == doc && Valid() && path == [] && events == []
    {
      this.doc := doc;
      path, depth, events := [], 0, [];
    }

    function Tag(): Label
      requires Valid()
      reads this
    {
      Sub(doc, path).tag
    }

    method BegElem()
      requires Valid()
      modifies this`events
      ensures events == old(events) + StartOf(Tag())
    {
      if Tag().kind != Data {
        events := events + [Start(SplitName(Tag().name))];
      }
    }

    method EndElem()
      requires Valid()
      modifies this`events
      ensures events == old(events) + EndOf(Tag())
    {
      if Tag().kind != Data {
        events := events + [End];
      }
    }

    /** Moves to the next node in document order, ending what is finished and starting what begins.
        The stream so far and the events still to come always make up the same stream. */
    method NextNode() returns (moved: bool)
      requires Valid()
      modifies this`path, this`depth, this`events
      ensures Valid()
      ensures moved == (old(Remaining(doc, path)) != [])
      ensures moved ==> path != [] && |Remaining(doc, path)| < old(|Remaining(doc, path)|)
      ensures moved ==> events + (ContentOf(Tag()) + Pending(doc, path)) == old(events + Pending(doc, path))
      ensures !moved ==> path == [] && events == old(events + Pending(doc, path))
    {
      hide Closing, EventsAll, StartOf, ContentOf, EndOf, Sub, After, FlatAll;
      ghost var total := events + Pending(doc, path);
      if HasChild(doc, path) {
        StepDown(doc, path);
        DownEvents(doc, path);
        ghost var before := events;
        path, depth := path + [0], depth + 1;
        BegElem();
        Swap(before, StartOf(Tag()), ContentOf(Tag()), Pending(doc, path));
        return true;
      }
      NoChild(doc, path);
      NothingPending(doc, path);
      assert total == events + Closing(doc, path);
      if path == [] {
        AtRoot(doc, events);
        AfterRoot(doc);
        return false;
      }
      if HasSibling(doc, path) {
        MoveAcross(total);
        return true;
      }
      ClimbOne(total);
      while path != []
        invariant Valid() && total == events + Closing(doc, path)
        invariant old(Remaining(doc, path)) == After(doc, path, 0)
        decreases |path|
      {
        if HasSibling(doc, path) {
          MoveAcross(total);
          return true;
        }
        ClimbOne(total);
      }
      AtRoot(doc, events);
      AfterRoot(doc);
      return false;
    }

    method MoveAcross(ghost total: seq<Event>)
      requires Valid() && path != [] && HasSibling(doc, path) && total == events + Closing(doc, path)
      modifies this`path, this`events
      ensures Valid() && path != [] && |After(doc, old(path), 0)| == 1 + |Remaining(doc, path)|
      ensures events + (ContentOf(Tag()) + Pending(doc, path)) == total
    {
      hide Closing, EventsAll, StartOf, ContentOf, EndOf, Sub, Pending, Remaining, After;
      StepAcross(doc, path);
      AcrossEvents(doc, path);
      ghost var before, e := events, EndOf(Tag());
      EndElem();
      path := SiblingPath(path);
      BegElem();
      Shift(before, e, StartOf(Tag()), ContentOf(Tag()), Pending(doc, path));
    }

    method ClimbOne(ghost total: seq<Event>)
      requires Valid() && path != [] && !HasSibling(doc, path) && total == events + Closing(doc, path)
      modifies this`path, this`depth, this`events
      ensures Valid() && path == Init(old(path)) && total == events + Closing(doc, path)
      ensures After(doc, path, 0) == After(doc, old(path), 0)
    {
      hide Closing, EndOf, Sub, After;
      StepUp(doc, path);
      UpEvents(doc, path);
      EndElem();
      path, depth := Init(path), depth - 1;
    }

    /** parse: visits every node and writes the character data of data nodes. */
    method Parse()
      requires Valid() && path == [] && events == []
      modifies this`path, this`depth, this`events
      ensures Valid() && path == [] && events == EventsAll(doc.children)
    {
      hide EventsAll, ContentOf, Remaining, Sub;
      ghost var total := EventsAll(doc.children);
      AtStart(doc);
      var moved := NextNode();
      while moved
        invariant Valid() && (!moved ==> path == [] && events == total)
        invariant moved ==> events + (ContentOf(Tag()) + Pending(doc, path)) == total
        decreases if moved then |Remaining(doc, path)| + 1 else 0
      {
        WriteContent();
        moved := NextNode();
      }
    }

    method WriteContent()
      requires Valid()
      modifies this`events
      ensures events + Pending(doc, path) == old(events) + (ContentOf(Tag()) + Pending(doc, path))
    {
      hide Pending, Ordered, AttributeEvents;
      HandleAttrs();
      ghost var written := events;
      if Tag().kind == Data {
        events := events + [StringData(Tag().value)];
      }
      Swap(old(events), AttributeEvents(Ordered(Tag().attrs)), DataOf(Tag()), Pending(doc, path));
      assert events == written + DataOf(Tag());
      assert written + DataOf(Tag()) + Pending(doc, path) == written + (DataOf(Tag()) + Pending(doc, path));
    }

    method HandleAttrs()
      requires Valid()
      modifies this`events
      ensures events == old(events) + AttributeEvents(Ordered(Tag().attrs))
    {
      var attrs := Ordered(Tag().attrs);
      for i := 0 to |attrs|
        invariant events + AttributeEvents(attrs[i..]) == old(events) + AttributeEvents(attrs)
      {
        assert attrs[i..][1..] == attrs[i + 1..];
        ghost var head := [Attribute(SplitName(attrs[i].0)), StringData(attrs[i].1)];
        assert events + (head + AttributeEvents(attrs[i + 1..])) == events + head + AttributeEvents(attrs[i + 1..]);
        events := events + [Attribute(SplitName(attrs[i].0)), StringData(attrs[i].1)];
      }
    }
  }

  lemma Swap(before: seq<Event>, s: seq<Event>, d: seq<Event>, p: seq<Event>)
    ensures before + s + (d + p) == before + (s + d + p)
  {
  }

  lemma Shift(before: seq<Event>, e: seq<Event>, s: seq<Event>, d: seq<Event>, p: seq<Event>)
    ensures before + e + s + (d + p) == before + (e + (s + d + p))
  {
  }

  lemma NothingPending(t: Tree, path: Path)
    requires ValidPath(t, path) && !HasChild(t, path)
    ensures Pending(t, path) == Closing(t, path)
  {
  }

  lemma AtRoot(t: Tree, es: seq<Event>)
    ensures es + Closing(t, []) == es
  {
  }

  lemma AtStart(t: Tree)
    ensures ValidPath(t, []) && [] + Pending(t, []) == EventsAll(t.children)
  {
  }

  // ----- which attributes are written, and in which order

  type Pair = (string, string)

  /** xmlns, or xmlns: and more. */
  ghost predicate Declares(name: string) {
    name == "xmlns" || exists prefix: string :: name == "xmlns:" + prefix
  }

  lemma DeclaresIs(name: string)
    ensures Declares(name) <==> IsNamespace(name)
  {
    if |name| > 5 && name[..6] == "xmlns:" { assert name == "xmlns:" + name[6..]; }
  }

  /** The first place where they differ is k, and a has a smaller character there or ends. */
  ghost predicate SmallerAt(a: string, b: string, k: nat) {
    k < |b| && k <= |a| && (forall i :: 0 <= i < k ==> a[i] == b[i]) && (k == |a| || a[k] < b[k])
  }

  ghost predicate Precedes(a: string, b: string) {
    exists k: nat :: SmallerAt(a, b, k)
  }

  lemma {:induction false} BeforeIs(a: string, b: string)
    ensures Before(a, b) <==> !Precedes(b, a)
    decreases |a|
  {
    if a != "" && b != "" && a[0] == b[0] {
      BeforeIs(a[1..], b[1..]);
      if Precedes(b, a) {
        var k: nat :| SmallerAt(b, a, k);
        assert SmallerAt(b[1..], a[1..], k - 1);
      }
      if Precedes(b[1..], a[1..]) {
        var k: nat :| SmallerAt(b[1..], a[1..], k);
        assert forall i :: 1 <= i < k + 1 ==> b[i] == b[1..][i - 1] && a[i] == a[1..][i - 1];
        assert SmallerAt(b, a, k + 1);
      }
    } else if a != "" && (b == "" || b[0] < a[0]) {
      assert SmallerAt(b, a, 0);
    }
  }

  lemma {:induction false} BeforeTotal(a: string, b: string)
    ensures Before(a, b) || Before(b, a)
    decreases |a|
  {
    if a != "" && b != "" && a[0] == b[0] { BeforeTotal(a[1..], b[1..]); }
  }

  lemma {:induction false} BeforeChain(a: string, b: string, c: string)
    requires Before(a, b) && Before(b, c)
    ensures Before(a, c)
    decreases |a|
  {
    if a != "" && b != "" && c != "" && a[0] == b[0] && b[0] == c[0] { BeforeChain(a[1..], b[1..], c[1..]); }
  }

  ghost predicate Sorted(attrs: seq<Pair>) {
    forall i, j :: 0 <= i < j < |attrs| ==> Before(attrs[i].0, attrs[j].0)
  }

  /** The attributes of one name, in their order. */
  function Named(attrs: seq<Pair>, name: string): seq<Pair> {
    if attrs == [] then []
    else (if attrs[0].0 == name then [attrs[0]] else []) + Named(attrs[1..], name)
  }

  lemma {:induction false} InsertedSorted(a: Pair, attrs: seq<Pair>)
    requires Sorted(attrs)
    ensures Sorted(Inserted(a, attrs))
    ensures forall x :: x in Inserted(a, attrs) ==> x == a || x in attrs
  {
    hide Before;
    if attrs == [] {
    } else if Before(a.0, attrs[0].0) {
      forall j | 0 <= j < |attrs| ensures Before(a.0, attrs[j].0) {
        if j > 0 { BeforeChain(a.0, attrs[0].0, attrs[j].0); }
      }
    } else {
      InsertedSorted(a, attrs[1..]);
      BeforeTotal(a.0, attrs[0].0);
      var rest := Inserted(a, attrs[1..]);
      forall j | 0 <= j < |rest| ensures Before(attrs[0].0, rest[j].0) {
        assert rest[j] in rest;
        if rest[j] != a { var i :| 0 <= i < |attrs[1..]| && attrs[1..][i] == rest[j]; assert attrs[i + 1] == rest[j]; }
      }
    }
  }

  /** Inserting keeps the other attributes in place, and comes before those of the same name. */
  lemma {:induction false} InsertedNamed(a: Pair, attrs: seq<Pair>, name: string)
    ensures Named(Inserted(a, attrs), name) == (if a.0 == name then [a] else []) + Named(attrs, name)
  {
    if attrs == [] || Before(a.0, attrs[0].0) {
      assert ([a] + attrs)[1..] == attrs;
    } else {
      InsertedNamed(a, attrs[1..], name);
      BeforeSelf(name);
      assert ([attrs[0]] + Inserted(a, attrs[1..]))[1..] == Inserted(a, attrs[1..]);
    }
  }

  lemma {:induction false} BeforeSelf(a: string)
    ensures Before(a, a)
  {
    if a != "" { BeforeSelf(a[1..]); }
  }

  lemma {:induction false} OrderedNamed(attrs: seq<Pair>, name: string)
    ensures Named(Ordered(attrs), name) == if IsNamespace(name) then [] else Named(attrs, name)
  {
    hide IsNamespace, Inserted;
    if attrs != [] {
      OrderedNamed(attrs[1..], name);
      if !IsNamespace(attrs[0].0) { InsertedNamed(attrs[0], Ordered(attrs[1..]), name); }
    }
  }

  lemma {:induction false} OrderedSorted(attrs: seq<Pair>)
    ensures Sorted(Ordered(attrs))
  {
    if attrs != [] {
      OrderedSorted(attrs[1..]);
      if !IsNamespace(attrs[0].0) { InsertedSorted(attrs[0], Ordered(attrs[1..])); }
    }
  }

  /** The events of a sequence of attributes. */
  ghost predicate Writes(events: seq<Event>, pairs: seq<Pair>) {
    && |events| == 2 * |pairs|
    && forall i :: 0 <= i < |pairs| ==>
         events[2 * i] == Attribute(SplitName(pairs[i].0)) && events[2 * i + 1] == StringData(pairs[i].1)
  }

  lemma {:induction false} EventsWrite(pairs: seq<Pair>)
    ensures Writes(AttributeEvents(pairs), pairs)
  {
    hide SplitName;
    if pairs != [] {
      EventsWrite(pairs[1..]);
      var all, rest := AttributeEvents(pairs), AttributeEvents(pairs[1..]);
      forall i | 0 <= i < |pairs|
        ensures all[2 * i] == Attribute(SplitName(pairs[i].0)) && all[2 * i + 1] == StringData(pairs[i].1)
      {
        if i > 0 { assert all[2 * i] == rest[2 * (i - 1)] && all[2 * i + 1] == rest[2 * (i - 1) + 1]; }
      }
    }
  }

  /** The pairs written for a node: all but the namespace declarations, each as often as it is there, in the order of
      their names, those of one name in the order of the node. */
  ghost predicate WrittenPairs(attrs: seq<Pair>, pairs: seq<Pair>) {
    && (forall a :: multiset(pairs)[a] == if Declares(a.0) then 0 else multiset(attrs)[a])
    && (forall i, j :: 0 <= i < j < |pairs| ==> !Precedes(pairs[j].0, pairs[i].0))
    && (forall name :: Named(pairs, name) == if Declares(name) then [] else Named(attrs, name))
  }

  lemma {:induction false} NamedCount(attrs: seq<Pair>, a: Pair)
    ensures multiset(attrs)[a] == multiset(Named(attrs, a.0))[a]
  {
    if attrs != [] {
      NamedCount(attrs[1..], a);
      assert attrs == [attrs[0]] + attrs[1..];
    }
  }

  lemma OrderedIs(attrs: seq<Pair>)
    ensures WrittenPairs(attrs, Ordered(attrs))
  {
    hide Ordered, Before, Precedes, Named, IsNamespace, Declares;
    var pairs := Ordered(attrs);
    OrderedSorted(attrs);
    forall i, j | 0 <= i < j < |pairs| ensures !Precedes(pairs[j].0, pairs[i].0) {
      BeforeIs(pairs[i].0, pairs[j].0);
    }
    forall name ensures Named(pairs, name) == if Declares(name) then [] else Named(attrs, name) {
      OrderedNamed(attrs, name);
      DeclaresIs(name);
    }
    forall a: Pair ensures multiset(pairs)[a] == if Declares(a.0) then 0 else multiset(attrs)[a] {
      NamedCount(pairs, a);
      NamedCount(attrs, a);
    }
  }

  /** What the writer writes for an element without children: its start, its attributes, its end. */
  method WriteElement(doc: Tree, tag: Label) returns (events: seq<Event>, ghost pairs: seq<Pair>)
    requires doc.children == [Tree(tag, [])] && tag.kind == Element
    ensures WrittenPairs(tag.attrs, pairs) && |events| == 2 * |pairs| + 2
    ensures events[0] == Start(SplitName(tag.name)) && Writes(events[1..|events| - 1], pairs)
    ensures events[|events| - 1] == End
  {
    hide Ordered, AttributeEvents, SplitName, WrittenPairs, Writes;
    var writer := new WriterImpl(doc);
    writer.Parse();
    events, pairs := writer.events, Ordered(tag.attrs);
    OrderedIs(tag.attrs);
    EventsWrite(pairs);
    OneElement(doc, tag);
    WritesLength(AttributeEvents(pairs), pairs);
    var body := AttributeEvents(pairs);
    assert ([Start(SplitName(tag.name))] + body + [End])[1..|body| + 1] == body;
  }

  lemma WritesLength(events: seq<Event>, pairs: seq<Pair>)
    requires Writes(events, pairs)
    ensures |events| == 2 * |pairs|
  {
  }

  lemma OneElement(doc: Tree, tag: Label)
    requires doc.children == [Tree(tag, [])] && tag.kind == Element
    ensures EventsAll(doc.children) == [Start(SplitName(tag.name))] + AttributeEvents(Ordered(tag.attrs)) + [End]
  {
    hide Ordered, AttributeEvents, SplitName;
    assert doc.children[1..] == [];
    assert Events(Tree(tag, [])) == StartOf(tag) + ContentOf(tag) + [] + EndOf(tag);
  }

  /** In every stream the content of a node stands right behind its start: its attributes as above, and its data. */
  lemma ContentIs(tag: Label) returns (pairs: seq<Pair>)
    ensures WrittenPairs(tag.attrs, pairs) && 2 * |pairs| <= |ContentOf(tag)|
    ensures Writes(ContentOf(tag)[..2 * |pairs|], pairs)
    ensures ContentOf(tag)[2 * |pairs|..] == if tag.kind == Data then [StringData(tag.value)] else []
  {
    hide Ordered, AttributeEvents, SplitName, WrittenPairs, Writes;
    pairs := Ordered(tag.attrs);
    OrderedIs(tag.attrs);
    EventsWrite(pairs);
    WritesLength(AttributeEvents(pairs), pairs);
    assert ContentOf(tag)[..2 * |pairs|] == AttributeEvents(pairs);
  }

  /** A name is split at its first colon. */
  lemma SplitAtColon(prefix: string, local: string)
    requires ':' !in prefix
    ensures SplitName(prefix + ":" + local) == QName(prefix, local)
    ensures SplitName(prefix) == QName("", prefix)
  {
    var name := prefix + ":" + local;
    assert name[|prefix|] == ':';
    assert forall i :: 0 <= i < |prefix| ==> name[i] in prefix;
    assert Colon(name, 0) == |prefix|;
    assert name[..|prefix|] == prefix && name[|prefix| + 1..] == local;
    assert forall i :: 0 <= i < |prefix| ==> prefix[i] in prefix;
  }
}
