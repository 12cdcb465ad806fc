/** Reference-counted objects and the smart pointers to them, with any number of threads. Each atomic
    access to the counter, each delete and each write of a pointer field is a step of its own, and
    the steps of different threads interleave freely. Copying, assigning, converting, resetting and
    destroying a pointer are sequences of these steps. */
module RefCount {

  type Obj = nat
  type Ptr = nat

  /** `count` is the counter and `deletions` how often the object was deleted. `phase` is bookkeeping:
      who answers for the object now. */
  datatype Object = Object(count: int, deletions: nat, phase: Phase)

  datatype Phase = Adopted(p: Ptr) | Shared | Dying(thread: nat) | Dead

  /** The pointer field. Pending holds an address that is not counted yet and Stale one that is not any more; Owed
      counts for an address that is still in the hands of a thread. These remember the thread at work on them. */
  datatype Field =
    | Null
    | Pending(target: Obj, thread: nat)
    | Holds(target: Obj)
    | Owed(target: Obj, thread: nat)
    | Stale(target: Obj, thread: nat)

  datatype Source = NewObject | Copied(from: Ptr)

  /** What a thread is in the middle of. */
  datatype Pc =
    | Idle
    | Retaining(p: Ptr, source: Source)
    | Swapping(p: Ptr)
    | Deleting(p: Ptr, target: Obj, destroy: bool)
    | Finishing(p: Ptr, destroy: bool)

  /** `faulted` records that a step touched an object that was not there any more, or broke an assertion. */
  datatype State = State(objects: map<Obj, Object>, fields: map<Ptr, Field>, threads: seq<Pc>, faulted: bool)

  /** Adopt takes over a new object, and Wrap a raw address that the keeper holds meanwhile; Copy reads the
      field; all three leave Retain to count it. Move and Swap do the first of two writes: Finish clears the
      pointer moved from, Land stores the address that Swap put aside. Release is the fetch_sub, after which
      Delete may be due; Finish clears the field or ends the pointer's life. */
  datatype Action =
    | Default(p: Ptr)
    | Adopt(p: Ptr, o: Obj)
    | Wrap(p: Ptr, o: Obj, keeper: Ptr)
    | Copy(p: Ptr, from: Ptr)
    | Retain
    | Move(p: Ptr, from: Ptr)
    | Swap(p: Ptr, q: Ptr)
    | Land
    | Release(p: Ptr, destroy: bool)
    | Delete
    | Finish

  // ---- what callers owe: fresh storage, and nobody changes a pointer that is in use elsewhere

  predicate Settled(s: State, p: Ptr) {
    p in s.fields && (s.fields[p].Null? || s.fields[p].Holds?)
  }

  /** No thread is between reading this pointer and counting the copy. */
  ghost predicate Unpinned(s: State, p: Ptr) {
    forall t :: 0 <= t < |s.threads| && s.threads[t].Retaining? ==> s.threads[t].source != Copied(p)
  }

  ghost predicate Enabled(s: State, t: nat, a: Action) {
    t < |s.threads| && var pc := s.threads[t];
    match a
    case Default(p) => pc == Idle && p !in s.fields
    case Adopt(p, o) => pc == Idle && p !in s.fields && o !in s.objects
    case Wrap(p, o, keeper) => pc == Idle && p !in s.fields && Settled(s, keeper) && s.fields[keeper] == Holds(o)
    case Copy(p, from) => pc == Idle && p !in s.fields && Settled(s, from)
    case Move(p, from) => pc == Idle && p !in s.fields && Settled(s, from) && Unpinned(s, from)
    case Swap(p, q) => pc == Idle && Settled(s, p) && Settled(s, q) && Unpinned(s, p) && Unpinned(s, q)
    case Release(p, _) => pc == Idle && Settled(s, p) && Unpinned(s, p)
    case Retain => pc.Retaining?
    case Land => pc.Swapping?
    case Delete => pc.Deleting?
    case Finish => pc.Finishing?
  }

  // ---- the invariant

  predicate Counts(f: Field, o: Obj) {
    (f.Holds? || f.Owed?) && f.target == o
  }

  /** The pointers that hold the object or are owed it. */
  function Holders(fields: map<Ptr, Field>, o: Obj): set<Ptr> {
    set p | p in fields && Counts(fields[p], o)
  }

  /** The counter is the number of holders, and somebody answers for the object. */
  ghost predicate ObjectFits(s: State, o: Obj)
    requires o in s.objects
  {
    var x := s.objects[o];
    && x.count == |Holders(s.fields, o)|
    && match x.phase
       case Adopted(p) => x.count == 0 && x.deletions == 0 && p in s.fields && s.fields[p].Pending? &&
         s.fields[p].target == o
       case Shared => x.count > 0 && x.deletions == 0
       case Dying(t) => x.count == 0 && x.deletions == 0 && t < |s.threads| && s.threads[t].Deleting? &&
         s.threads[t].target == o
       case Dead => x.count == 0 && x.deletions == 1
  }

  ghost predicate FieldFits(s: State, p: Ptr)
    requires p in s.fields
  {
    match s.fields[p]
    case Null => true
    case Holds(o) => o in s.objects && s.objects[o].phase == Shared
    case Owed(o, t) =>
      o in s.objects && s.objects[o].phase == Shared && t < |s.threads| && s.threads[t] == Swapping(p)
    case Pending(_, t) => t < |s.threads| && s.threads[t].Retaining? && s.threads[t].p == p
    case Stale(_, t) => t < |s.threads| && (s.threads[t].Deleting? || s.threads[t].Finishing?) && s.threads[t].p == p
  }

  ghost predicate ThreadFits(s: State, t: nat)
    requires t < |s.threads|
  {
    match s.threads[t]
    case Idle => true
    case Retaining(p, source) =>
      && p in s.fields && s.fields[p].Pending? && s.fields[p].thread == t
      && (match source
          case NewObject => s.fields[p].target in s.objects && s.objects[s.fields[p].target].phase == Adopted(p)
          case Copied(from) => from in s.fields && s.fields[from] == Holds(s.fields[p].target))
    case Swapping(p) => p in s.fields && s.fields[p].Owed? && s.fields[p].thread == t
    case Deleting(p, o, _) =>
      p in s.fields && s.fields[p] == Stale(o, t) && o in s.objects && s.objects[o].phase == Dying(t)
    case Finishing(p, _) => p in s.fields && s.fields[p].Stale? && s.fields[p].thread == t
  }

  ghost predicate Inv(s: State) {
    && !s.faulted
    && (forall o :: o in s.objects ==> ObjectFits(s, o))
    && (forall p :: p in s.fields ==> FieldFits(s, p))
    && (forall t :: 0 <= t < |s.threads| ==> ThreadFits(s, t))
  }

  // ---- the steps

  function Retained(x: Object): Object {
    Object(x.count + 1, x.deletions, Shared)
  }

  function Released(x: Object, t: nat): Object {
    Object(x.count - 1, x.deletions, if x.count == 1 then Dying(t) else Shared)
  }

  predicate Live(s: State, o: Obj) {
    o in s.objects && s.objects[o].deletions == 0
  }

  /** The counter and the object are there when they are touched, the counter does not go below zero,
      and what is deleted has no references. */
  ghost predicate Sound(s: State, t: nat, a: Action)
    requires Enabled(s, t, a)
  {
    var pc := s.threads[t];
    match a
    case Land => pc.p in s.fields && s.fields[pc.p].Owed?
    case Retain => pc.p in s.fields && s.fields[pc.p].Pending? && Live(s, s.fields[pc.p].target)
    case Release(p, _) => s.fields[p].Holds? ==> Live(s, s.fields[p].target) && s.objects[s.fields[p].target].count > 0
    case Delete => Live(s, pc.target) && s.objects[pc.target].count == 0
    case _ => true
  }

  ghost function Apply(s: State, t: nat, a: Action): State
    requires Enabled(s, t, a)
  {
    if !Sound(s, t, a) then s.(faulted := true) else
      var pc := s.threads[t];
      match a
      case Default(p) => s.(fields := s.fields[p := Null])
      case Adopt(p, o) =>
        s.(objects := s.objects[o := Object(0, 0, Adopted(p))], fields := s.fields[p := Pending(o, t)],
           threads := s.threads[t := Retaining(p, NewObject)])
      case Wrap(p, o, keeper) =>
        s.(fields := s.fields[p := Pending(o, t)], threads := s.threads[t := Retaining(p, Copied(keeper))])
      case Copy(p, from) =>
        if s.fields[from].Null? then s.(fields := s.fields[p := Null])
        else s.(fields := s.fields[p := Pending(s.fields[from].target, t)],
          threads := s.threads[t := Retaining(p, Copied(from))])
      case Retain =>
        var o := s.fields[pc.p].target;
        s.(objects := s.objects[o := Retained(s.objects[o])], fields := s.fields[pc.p := Holds(o)],
          threads := s.threads[t := Idle])
      case Move(p, from) =>
        if s.fields[from].Null? then s.(fields := s.fields[p := Null])
        else
          s.(fields := s.fields[p := s.fields[from]][from := Stale(s.fields[from].target, t)],
             threads := s.threads[t := Finishing(from, false)])
      case Swap(p, q) =>
        if p == q || s.fields[p] == s.fields[q] then s
        else if s.fields[q].Null? then
          s.(fields := s.fields[q := s.fields[p]][p := Stale(s.fields[p].target, t)],
            threads := s.threads[t := Finishing(p, false)])
        else
          s.(fields := s.fields[q := s.fields[p]][p := Owed(s.fields[q].target, t)],
            threads := s.threads[t := Swapping(p)])
      case Land =>
        s.(fields := s.fields[pc.p := Holds(s.fields[pc.p].target)], threads := s.threads[t := Idle])
      case Release(p, destroy) =>
        if s.fields[p].Null? then s.(fields := if destroy then s.fields - {p} else s.fields)
        else
          var o := s.fields[p].target;
          var next := if s.objects[o].count == 1 then Deleting(p, o, destroy) else Finishing(p, destroy);
          s.(objects := s.objects[o := Released(s.objects[o], t)], fields := s.fields[p := Stale(o, t)],
            threads := s.threads[t := next])
      case Delete =>
        var x := s.objects[pc.target];
        s.(objects := s.objects[pc.target := Object(x.count, x.deletions + 1, Dead)],
          threads := s.threads[t := Finishing(pc.p, pc.destroy)])
      case Finish =>
        s.(fields := if pc.destroy then s.fields - {pc.p} else s.fields[pc.p := Null], threads := s.threads[t := Idle])
  }

  // ---- counting

  lemma HoldersOther(fields: map<Ptr, Field>, p: Ptr, v: Field, o: Obj)
    requires !Counts(v, o) && (p in fields ==> !Counts(fields[p], o))
    ensures Holders(fields[p := v], o) == Holders(fields, o) == Holders(fields - {p}, o)
  {
  }

  lemma HoldersGain(fields: map<Ptr, Field>, p: Ptr, v: Field, o: Obj)
    requires Counts(v, o) && (p in fields ==> !Counts(fields[p], o))
    ensures |Holders(fields[p := v], o)| == |Holders(fields, o)| + 1
  {
    assert Holders(fields[p := v], o) == Holders(fields, o) + {p};
  }

  lemma HoldersLose(fields: map<Ptr, Field>, p: Ptr, v: Field, o: Obj)
    requires p in fields && Counts(fields[p], o) && !Counts(v, o)
    ensures |Holders(fields[p := v], o)| == |Holders(fields, o)| - 1
  {
    assert Holders(fields[p := v], o) == Holders(fields, o) - {p};
    assert p in Holders(fields, o);
  }

  /** Two writes that hand the holding of one pointer to another. */
  lemma HandedOver(fields: map<Ptr, Field>, p: Ptr, v: Field, q: Ptr, w: Field, o: Obj)
    requires p != q && q in fields
    requires (if p in fields && Counts(fields[p], o) then 1 else 0) + (if Counts(fields[q], o) then 1 else 0)
          == (if Counts(v, o) then 1 else 0) + (if Counts(w, o) then 1 else 0)
    ensures |Holders(fields[p := v][q := w], o)| == |Holders(fields, o)|
  {
    hide Holders, Counts;
    OneWrite(fields, p, v, o);
    OneWrite(fields[p := v], q, w, o);
  }

  lemma OneWrite(fields: map<Ptr, Field>, p: Ptr, v: Field, o: Obj)
    ensures |Holders(fields[p := v], o)| == |Holders(fields, o)| +
      (if Counts(v, o) then 1 else 0) - (if p in fields && Counts(fields[p], o) then 1 else 0)
  {
    hide Holders, Counts;
    if p in fields && Counts(fields[p], o) {
      if Counts(v, o) { SameHolders(fields, p, v, o); } else { HoldersLose(fields, p, v, o); }
    } else {
      if Counts(v, o) { HoldersGain(fields, p, v, o); } else { HoldersOther(fields, p, v, o); }
    }
  }

  lemma SameHolders(fields: map<Ptr, Field>, p: Ptr, v: Field, o: Obj)
    requires p in fields && Counts(fields[p], o) && Counts(v, o)
    ensures Holders(fields[p := v], o) == Holders(fields, o)
  {
  }

  lemma HoldersBounds(s: State, p: Ptr)
    requires Inv(s) && p in s.fields && s.fields[p].Holds?
    ensures s.fields[p].target in s.objects && s.objects[s.fields[p].target].count >= 1
  {
    assert FieldFits(s, p);
    assert ObjectFits(s, s.fields[p].target);
  }

  lemma NoHolders(s: State, o: Obj)
    requires Inv(s) && o !in s.objects
    ensures Holders(s.fields, o) == {}
  {
    forall p ensures p !in Holders(s.fields, o) { assert p in s.fields ==> FieldFits(s, p); }
  }

  // ---- each step keeps the invariant

  /** A new pointer that is null. */
  lemma NullKeeps(s: State, p: Ptr)
    requires Inv(s) && p !in s.fields
    ensures Inv(s.(fields := s.fields[p := Null]))
  {
    hide Holders;
    var s' := s.(fields := s.fields[p := Null]);
    forall o { HoldersOther(s.fields, p, Null, o); }
    forall x | x in s'.objects ensures ObjectFits(s', x) { assert ObjectFits(s, x); }
    forall q | q in s'.fields ensures FieldFits(s', q) { assert q != p ==> FieldFits(s, q); }
    forall u | 0 <= u < |s'.threads| ensures ThreadFits(s', u) { assert ThreadFits(s, u); }
  }

  lemma AdoptKeeps(s: State, t: nat, p: Ptr, o: Obj)
    requires Inv(s) && Enabled(s, t, Adopt(p, o))
    ensures Inv(Apply(s, t, Adopt(p, o)))
  {
    hide Holders;
    var s' := Apply(s, t, Adopt(p, o));
    forall x { HoldersOther(s.fields, p, Pending(o, t), x); }
    NoHolders(s, o);
    forall x | x in s'.objects ensures ObjectFits(s', x) { assert x != o ==> ObjectFits(s, x); }
    forall q | q in s'.fields ensures FieldFits(s', q) { assert q != p ==> FieldFits(s, q); }
    forall u | 0 <= u < |s'.threads| ensures ThreadFits(s', u) { assert ThreadFits(s, u); }
  }

  lemma CopyKeeps(s: State, t: nat, p: Ptr, from: Ptr)
    requires Inv(s) && Enabled(s, t, Copy(p, from))
    ensures Inv(Apply(s, t, Copy(p, from)))
  {
    hide Holders;
    if s.fields[from].Null? { NullKeeps(s, p); return; }
    var s' := Apply(s, t, Copy(p, from));
    forall x { HoldersOther(s.fields, p, Pending(s.fields[from].target, t), x); }
    forall x | x in s'.objects ensures ObjectFits(s', x) { assert ObjectFits(s, x); }
    forall q | q in s'.fields ensures FieldFits(s', q) { assert q != p ==> FieldFits(s, q); }
    forall u | 0 <= u < |s'.threads| ensures ThreadFits(s', u) { assert ThreadFits(s, u); }
  }

  lemma RetainKeeps(s: State, t: nat)
    requires Inv(s) && Enabled(s, t, Retain)
    ensures Inv(Apply(s, t, Retain))
  {
    hide Holders;
    var s' := Apply(s, t, Retain);
    assert ThreadFits(s, t);
    var p := s.threads[t].p;
    var o := s.fields[p].target;
    HoldersGain(s.fields, p, Holds(o), o);
    forall x | x != o { HoldersOther(s.fields, p, Holds(o), x); }
    forall x | x in s'.objects ensures ObjectFits(s', x) { assert ObjectFits(s, x); }
    forall q | q in s'.fields ensures FieldFits(s', q) { assert FieldFits(s, q); }
    forall u | 0 <= u < |s'.threads| ensures ThreadFits(s', u) { assert ThreadFits(s, u); }
  }

  lemma WrapKeeps(s: State, t: nat, p: Ptr, o: Obj, keeper: Ptr)
    requires Inv(s) && Enabled(s, t, Wrap(p, o, keeper))
    ensures Inv(Apply(s, t, Wrap(p, o, keeper)))
  {
    hide Inv;
    CopyKeeps(s, t, p, keeper);
  }

  lemma MoveKeeps(s: State, t: nat, p: Ptr, from: Ptr)
    requires Inv(s) && Enabled(s, t, Move(p, from))
    ensures Inv(Apply(s, t, Move(p, from)))
  {
    hide Holders, Counts;
    if s.fields[from].Null? { NullKeeps(s, p); return; }
    var s' := Apply(s, t, Move(p, from));
    forall x ensures |Holders(s'.fields, x)| == |Holders(s.fields, x)| { MovedHolders(s.fields, p, from, t, x); }
    assert FieldFits(s, from);
    forall x | x in s'.objects ensures ObjectFits(s', x) { assert ObjectFits(s, x); }
    forall q | q in s'.fields ensures FieldFits(s', q) { assert q != p ==> FieldFits(s, q); }
    forall u | 0 <= u < |s'.threads| ensures ThreadFits(s', u) { assert ThreadFits(s, u); }
  }

  lemma MovedHolders(fields: map<Ptr, Field>, p: Ptr, from: Ptr, t: nat, o: Obj)
    requires p !in fields && from in fields && fields[from].Holds?
    ensures |Holders(fields[p := fields[from]][from := Stale(fields[from].target, t)], o)| == |Holders(fields, o)|
  {
    HandedOver(fields, p, fields[from], from, Stale(fields[from].target, t), o);
  }

  lemma SwapKeeps(s: State, t: nat, p: Ptr, q: Ptr)
    requires Inv(s) && Enabled(s, t, Swap(p, q))
    ensures Inv(Apply(s, t, Swap(p, q)))
  {
    if p != q && s.fields[p] != s.fields[q] {
      hide Inv;
      if s.fields[q].Null? { SwapNullKeeps(s, t, p, q); } else { SwapOwedKeeps(s, t, p, q); }
    }
  }

  lemma SwapNullKeeps(s: State, t: nat, p: Ptr, q: Ptr)
    requires Inv(s) && Enabled(s, t, Swap(p, q)) && p != q && s.fields[p] != s.fields[q] && s.fields[q].Null?
    ensures Inv(Apply(s, t, Swap(p, q)))
  {
    hide Holders, Counts;
    var s' := Apply(s, t, Swap(p, q));
    forall x ensures |Holders(s'.fields, x)| == |Holders(s.fields, x)| { SwappedHolders(s.fields, p, q, t, x); }
    assert FieldFits(s, p);
    forall x | x in s'.objects ensures ObjectFits(s', x) { assert ObjectFits(s, x); }
    forall r | r in s'.fields ensures FieldFits(s', r) { assert FieldFits(s, r); }
    forall u | 0 <= u < |s'.threads| ensures ThreadFits(s', u) { assert ThreadFits(s, u); }
  }

  lemma SwapOwedKeeps(s: State, t: nat, p: Ptr, q: Ptr)
    requires Inv(s) && Enabled(s, t, Swap(p, q)) && p != q && s.fields[p] != s.fields[q] && s.fields[q].Holds?
    ensures Inv(Apply(s, t, Swap(p, q)))
  {
    hide Holders, Counts;
    var s' := Apply(s, t, Swap(p, q));
    forall x ensures |Holders(s'.fields, x)| == |Holders(s.fields, x)| { SwappedHolders(s.fields, p, q, t, x); }
    assert FieldFits(s, p) && FieldFits(s, q);
    forall x | x in s'.objects ensures ObjectFits(s', x) { assert ObjectFits(s, x); }
    forall r | r in s'.fields ensures FieldFits(s', r) { assert FieldFits(s, r); }
    forall u | 0 <= u < |s'.threads| ensures ThreadFits(s', u) { assert ThreadFits(s, u); }
  }

  /** The pointer written first takes over what the other one held, and that one is owed what was put aside. */
  lemma SwappedHolders(fields: map<Ptr, Field>, p: Ptr, q: Ptr, t: nat, o: Obj)
    requires p in fields && q in fields && p != q && fields[p] != fields[q]
    requires (fields[p].Null? || fields[p].Holds?) && (fields[q].Null? || fields[q].Holds?)
    ensures fields[q].Null? ==>
      |Holders(fields[q := fields[p]][p := Stale(fields[p].target, t)], o)| == |Holders(fields, o)|
    ensures fields[q].Holds? ==>
      |Holders(fields[q := fields[p]][p := Owed(fields[q].target, t)], o)| == |Holders(fields, o)|
  {
    var left := if fields[q].Null? then Stale(fields[p].target, t) else Owed(fields[q].target, t);
    HandedOver(fields, q, fields[p], p, left, o);
  }

  lemma LandKeeps(s: State, t: nat)
    requires Inv(s) && Enabled(s, t, Land)
    ensures Inv(Apply(s, t, Land))
  {
    hide Holders;
    var s' := Apply(s, t, Land);
    assert ThreadFits(s, t);
    var p := s.threads[t].p;
    assert FieldFits(s, p);
    forall x ensures Holders(s'.fields, x) == Holders(s.fields, x) { LandedHolders(s.fields, p, x); }
    forall x | x in s'.objects ensures ObjectFits(s', x) { assert ObjectFits(s, x); }
    forall q | q in s'.fields ensures FieldFits(s', q) { assert FieldFits(s, q); }
    forall u | 0 <= u < |s'.threads| ensures ThreadFits(s', u) { assert ThreadFits(s, u); }
  }

  lemma LandedHolders(fields: map<Ptr, Field>, p: Ptr, o: Obj)
    requires p in fields && fields[p].Owed?
    ensures Holders(fields[p := Holds(fields[p].target)], o) == Holders(fields, o)
  {
  }

  lemma ReleaseNullKeeps(s: State, t: nat, p: Ptr, destroy: bool)
    requires Inv(s) && Enabled(s, t, Release(p, destroy)) && s.fields[p].Null?
    ensures Inv(Apply(s, t, Release(p, destroy)))
  {
    hide Holders;
    var s' := Apply(s, t, Release(p, destroy));
    forall x { HoldersOther(s.fields, p, Null, x); }
    forall x | x in s'.objects ensures ObjectFits(s', x) { assert ObjectFits(s, x); }
    forall q | q in s'.fields ensures FieldFits(s', q) { assert FieldFits(s, q); }
    forall u | 0 <= u < |s'.threads| ensures ThreadFits(s', u) { assert ThreadFits(s, u); }
  }

  lemma ReleaseSharedKeeps(s: State, t: nat, p: Ptr, destroy: bool)
    requires Inv(s) && Enabled(s, t, Release(p, destroy)) && s.fields[p].Holds?
    requires s.fields[p].target in s.objects && s.objects[s.fields[p].target].count > 1
    ensures Inv(Apply(s, t, Release(p, destroy)))
  {
    hide Holders;
    var s' := Apply(s, t, Release(p, destroy));
    var o := s.fields[p].target;
    assert FieldFits(s, p);
    assert ObjectFits(s, o);
    HoldersLose(s.fields, p, Stale(o, t), o);
    forall x | x != o { HoldersOther(s.fields, p, Stale(o, t), x); }
    forall x | x in s'.objects ensures ObjectFits(s', x) { assert ObjectFits(s, x); }
    forall q | q in s'.fields ensures FieldFits(s', q) { assert FieldFits(s, q); }
    forall u | 0 <= u < |s'.threads| ensures ThreadFits(s', u) { assert ThreadFits(s, u); }
  }

  lemma ReleaseLastKeeps(s: State, t: nat, p: Ptr, destroy: bool)
    requires Inv(s) && Enabled(s, t, Release(p, destroy)) && s.fields[p].Holds?
    requires s.fields[p].target in s.objects && s.objects[s.fields[p].target].count == 1
    ensures Inv(Apply(s, t, Release(p, destroy)))
  {
    hide Holders;
    var s' := Apply(s, t, Release(p, destroy));
    var o := s.fields[p].target;
    assert FieldFits(s, p);
    assert ObjectFits(s, o);
    HoldersLose(s.fields, p, Stale(o, t), o);
    forall x | x != o { HoldersOther(s.fields, p, Stale(o, t), x); }
    forall q | q in s.fields && q != p ensures !Counts(s.fields[q], o) {
      if Counts(s.fields[q], o) { TwoHolders(s, p, q); }
    }
    forall x | x in s'.objects ensures ObjectFits(s', x) { assert ObjectFits(s, x); }
    forall q | q in s'.fields ensures FieldFits(s', q) { assert FieldFits(s, q); }
    forall u | 0 <= u < |s'.threads| ensures ThreadFits(s', u) { assert ThreadFits(s, u); }
  }

  lemma ReleaseKeeps(s: State, t: nat, p: Ptr, destroy: bool)
    requires Inv(s) && Enabled(s, t, Release(p, destroy))
    ensures Inv(Apply(s, t, Release(p, destroy)))
  {
    hide Inv, Apply;
    if s.fields[p].Null? {
      ReleaseNullKeeps(s, t, p, destroy);
    } else {
      HoldersBounds(s, p);
      if s.objects[s.fields[p].target].count == 1 { ReleaseLastKeeps(s, t, p, destroy); }
      else { ReleaseSharedKeeps(s, t, p, destroy); }
    }
  }

  /** Two pointers to one object count twice. */
  lemma TwoHolders(s: State, p: Ptr, q: Ptr)
    requires Inv(s) && p in s.fields && q in s.fields && p != q && s.fields[p].Holds?
    requires Counts(s.fields[q], s.fields[p].target)
    ensures s.fields[p].target in s.objects && s.objects[s.fields[p].target].count >= 2
  {
    var o := s.fields[p].target;
    assert FieldFits(s, p);
    assert ObjectFits(s, o);
    assert p in Holders(s.fields, o) && q in Holders(s.fields, o) - {p};
    assert |Holders(s.fields, o)| == |Holders(s.fields, o) - {p}| + 1;
  }

  lemma DeleteKeeps(s: State, t: nat)
    requires Inv(s) && Enabled(s, t, Delete)
    ensures Inv(Apply(s, t, Delete))
  {
    hide Holders;
    var s' := Apply(s, t, Delete);
    assert ThreadFits(s, t);
    forall x | x in s'.objects ensures ObjectFits(s', x) { assert ObjectFits(s, x); }
    forall q | q in s'.fields ensures FieldFits(s', q) { assert FieldFits(s, q); }
    forall u | 0 <= u < |s'.threads| ensures ThreadFits(s', u) { assert ThreadFits(s, u); }
  }

  lemma FinishKeeps(s: State, t: nat)
    requires Inv(s) && Enabled(s, t, Finish)
    ensures Inv(Apply(s, t, Finish))
  {
    hide Holders;
    var s' := Apply(s, t, Finish);
    assert ThreadFits(s, t);
    forall x { HoldersOther(s.fields, s.threads[t].p, Null, x); }
    forall x | x in s'.objects ensures ObjectFits(s', x) { assert ObjectFits(s, x); }
    forall q | q in s'.fields ensures FieldFits(s', q) { assert FieldFits(s, q); }
    forall u | 0 <= u < |s'.threads| ensures ThreadFits(s', u) { assert ThreadFits(s, u); }
  }

  // ---- all runs

  datatype Step = Step(thread: nat, action: Action)

  lemma StepKeeps(s: State, t: nat, a: Action)
    requires Inv(s) && Enabled(s, t, a)
    ensures Inv(Apply(s, t, a))
  {
    hide Inv, Apply;
    match a
    case Default(p) => DefaultKeeps(s, t, p);
    case Adopt(p, o) => AdoptKeeps(s, t, p, o);
    case Wrap(p, o, keeper) => WrapKeeps(s, t, p, o, keeper);
    case Copy(p, from) => CopyKeeps(s, t, p, from);
    case Retain => RetainKeeps(s, t);
    case Move(p, from) => MoveKeeps(s, t, p, from);
    case Swap(p, q) => SwapKeeps(s, t, p, q);
    case Land => LandKeeps(s, t);
    case Release(p, destroy) => ReleaseKeeps(s, t, p, destroy);
    case Delete => DeleteKeeps(s, t);
    case Finish => FinishKeeps(s, t);
  }

  lemma DefaultKeeps(s: State, t: nat, p: Ptr)
    requires Inv(s) && Enabled(s, t, Default(p))
    ensures Inv(Apply(s, t, Default(p)))
  {
    NullKeeps(s, p);
  }

  /** A run takes enabled steps of any threads in any order. */
  ghost predicate Reaches(s: State, steps: seq<Step>, last: State)
    decreases steps
  {
    if steps == [] then s == last
    else
      && Enabled(s, steps[0].thread, steps[0].action)
      && Reaches(Apply(s, steps[0].thread, steps[0].action), steps[1..], last)
  }

  ghost predicate Initial(s: State) {
    s.objects == map[] && s.fields == map[] && !s.faulted && forall t :: 0 <= t < |s.threads| ==> s.threads[t] == Idle
  }

  lemma {:induction false} RunKeeps(s: State, steps: seq<Step>, last: State)
    requires Inv(s) && Reaches(s, steps, last)
    ensures Inv(last)
    decreases steps
  {
    hide Inv, Apply, Enabled;
    if steps != [] {
      StepKeeps(s, steps[0].thread, steps[0].action);
      RunKeeps(Apply(s, steps[0].thread, steps[0].action), steps[1..], last);
    }
  }

  ghost predicate Quiet(s: State) {
    forall t :: 0 <= t < |s.threads| ==> s.threads[t] == Idle
  }

  /** In every run nothing is touched after its deletion, counters count the pointers that hold, no
      pointer outlives its object, and nothing is deleted twice. */
  lemma Safety(first: State, steps: seq<Step>, last: State)
    requires Initial(first) && Reaches(first, steps, last)
    ensures !last.faulted
    ensures forall o :: o in last.objects ==>
      last.objects[o].count == |Holders(last.fields, o)| && last.objects[o].deletions <= 1
    ensures forall p :: p in last.fields && !last.fields[p].Null? && !last.fields[p].Stale? ==>
      Live(last, last.fields[p].target)
  {
    RunKeeps(first, steps, last);
    forall o | o in last.objects
      ensures last.objects[o].count == |Holders(last.fields, o)| && last.objects[o].deletions <= 1
    {
      assert ObjectFits(last, o);
    }
    forall p | p in last.fields && !last.fields[p].Null? && !last.fields[p].Stale?
      ensures Live(last, last.fields[p].target)
    {
      TargetLives(last, p);
    }
  }

  lemma TargetLives(s: State, p: Ptr)
    requires Inv(s) && p in s.fields && !s.fields[p].Null? && !s.fields[p].Stale?
    ensures Live(s, s.fields[p].target)
  {
    assert FieldFits(s, p);
    if s.fields[p].Pending? {
      var t := s.fields[p].thread;
      assert ThreadFits(s, t);
      if s.threads[t].source.Copied? { assert FieldFits(s, s.threads[t].source.from); }
    }
    assert ObjectFits(s, s.fields[p].target);
  }

  /** Once all threads are at rest, an object has been deleted exactly once when no pointer holds it, and not at
      all when one does. */
  lemma DeletedExactlyOnce(first: State, steps: seq<Step>, last: State, o: Obj)
    requires Initial(first) && Reaches(first, steps, last) && Quiet(last) && o in last.objects
    ensures last.objects[o].deletions == if Holders(last.fields, o) == {} then 1 else 0
  {
    RunKeeps(first, steps, last);
    assert ObjectFits(last, o);
    var phase := last.objects[o].phase;
    assert phase.Adopted? ==> FieldFits(last, phase.p);
  }
}
