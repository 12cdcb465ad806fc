/** What whole operations on smart pointers do to the pointers, whatever other threads do meanwhile to other ones. */
module RefCountOps {
  import opened Wrappers
  import opened RefCount

  /** The field of a pointer, or None where there is no pointer. */
  function FieldOf(s: State, p: Ptr): Option<Field> {
    if p in s.fields then Some(s.fields[p]) else None
  }

  /** The steps that begin an operation; the others continue one. */
  predicate Begins(a: Action) {
    !a.Retain? && !a.Land? && !a.Delete? && !a.Finish?
  }

  /** What the pointer is after the operation: the meaning of each operation. */
  function Promised(s: State, a: Action, p: Ptr): Option<Field> {
    match a
    case Default(q) => if p == q then Some(Null) else FieldOf(s, p)
    case Adopt(q, o) => if p == q then Some(Holds(o)) else FieldOf(s, p)
    case Wrap(q, o, _) => if p == q then Some(Holds(o)) else FieldOf(s, p)
    case Copy(q, from) => if p == q then FieldOf(s, from) else FieldOf(s, p)
    case Move(q, from) => if p == q then FieldOf(s, from) else if p == from then Some(Null) else FieldOf(s, p)
    case Swap(q, r) => if p == q then FieldOf(s, r) else if p == r then FieldOf(s, q) else FieldOf(s, p)
    case Release(q, destroy) => if p != q then FieldOf(s, p) else if destroy then None else Some(Null)
    case _ => FieldOf(s, p)
  }

  // ---- one step

  /** The step may write this pointer. */
  predicate Writes(s: State, t: nat, a: Action, p: Ptr)
    requires t < |s.threads|
  {
    match a
    case Default(q) => p == q
    case Adopt(q, _) => p == q
    case Wrap(q, _, _) => p == q
    case Copy(q, _) => p == q
    case Move(q, from) => p == q || p == from
    case Swap(q, r) => p == q || p == r
    case Release(q, _) => p == q
    case Delete => false
    case _ => !s.threads[t].Idle? && p == s.threads[t].p
  }

  lemma OthersKept(s: State, t: nat, a: Action, p: Ptr)
    requires Enabled(s, t, a) && !Writes(s, t, a, p)
    ensures FieldOf(Apply(s, t, a), p) == FieldOf(s, p)
  {
  }

  lemma ThreadsKept(s: State, t: nat, a: Action, u: nat)
    requires Enabled(s, t, a) && u < |s.threads| && u != t
    ensures |Apply(s, t, a).threads| == |s.threads| && Apply(s, t, a).threads[u] == s.threads[u]
  {
  }

  /** What the pointer will be when the thread is through with its operation. */
  function Final(s: State, t: nat, p: Ptr): Option<Field>
    requires t < |s.threads|
  {
    var pc := s.threads[t];
    if pc.Idle? || pc.p != p then FieldOf(s, p)
    else
      match pc
      case Retaining(_, _) => if p in s.fields && s.fields[p].Pending? then Some(Holds(s.fields[p].target)) else None
      case Swapping(_) => if p in s.fields && s.fields[p].Owed? then Some(Holds(s.fields[p].target)) else None
      case Deleting(_, _, destroy) => if destroy then None else Some(Null)
      case Finishing(_, destroy) => if destroy then None else Some(Null)
  }

  lemma BeginPromises(s: State, t: nat, a: Action, p: Ptr)
    requires Inv(s) && Enabled(s, t, a) && Begins(a)
    ensures |Apply(s, t, a).threads| == |s.threads| && Final(Apply(s, t, a), t, p) == Promised(s, a, p)
  {
    hide Inv, Live;
    StepKeeps(s, t, a);
    NotFaulted(Apply(s, t, a));
  }

  lemma NotFaulted(s: State)
    requires Inv(s)
    ensures !s.faulted
  {
  }

  lemma ContinueKeeps(s: State, t: nat, a: Action, p: Ptr)
    requires Inv(s) && Enabled(s, t, a) && !Begins(a)
    ensures |Apply(s, t, a).threads| == |s.threads| && Final(Apply(s, t, a), t, p) == Final(s, t, p)
  {
    hide Live, ObjectFits, FieldFits;
    StepKeeps(s, t, a);
    NotFaulted(Apply(s, t, a));
    assert ThreadFits(s, t);
  }

  // ---- whole operations

  /** While the steps run, thread t only continues its operation and no other thread writes the pointer. */
  ghost predicate Undisturbed(s: State, steps: seq<Step>, t: nat, p: Ptr)
    decreases steps
  {
    steps == [] ||
    (var u, a := steps[0].thread, steps[0].action;
     && Enabled(s, u, a) && (if u == t then !Begins(a) else !Writes(s, u, a, p))
     && Undisturbed(Apply(s, u, a), steps[1..], t, p))
  }

  /** Thread t runs this operation from s to last; steps of other threads come between its own. */
  ghost predicate Operation(s: State, t: nat, a: Action, steps: seq<Step>, last: State, p: Ptr) {
    && Enabled(s, t, a) && Begins(a)
    && Reaches(Apply(s, t, a), steps, last) && Undisturbed(Apply(s, t, a), steps, t, p)
    && t < |last.threads| && last.threads[t] == Idle
  }

  lemma {:induction false} FinalKept(s: State, steps: seq<Step>, last: State, t: nat, p: Ptr)
    requires Inv(s) && Reaches(s, steps, last) && Undisturbed(s, steps, t, p) && t < |s.threads|
    ensures Inv(last) && |last.threads| == |s.threads| && Final(last, t, p) == Final(s, t, p)
    decreases steps
  {
    hide Inv, Apply, Enabled, Writes;
    if steps != [] {
      var u, a := steps[0].thread, steps[0].action;
      var next := Apply(s, u, a);
      StepKeeps(s, u, a);
      if u == t {
        ContinueKeeps(s, t, a, p);
      } else {
        ThreadOf(s, u, a);
        OthersKept(s, u, a, p);
        ThreadsKept(s, u, a, t);
      }
      FinalKept(next, steps[1..], last, t, p);
    }
  }

  lemma ThreadOf(s: State, t: nat, a: Action)
    requires Enabled(s, t, a)
    ensures t < |s.threads|
  {
  }

  /** Every pointer that no other thread writes is afterwards what the operation promises. */
  lemma OperationResult(s: State, t: nat, a: Action, steps: seq<Step>, last: State, p: Ptr)
    requires Inv(s) && Operation(s, t, a, steps, last, p)
    ensures Inv(last) && FieldOf(last, p) == Promised(s, a, p)
  {
    hide Inv, Apply, Enabled, Promised;
    ThreadOf(s, t, a);
    StepKeeps(s, t, a);
    BeginPromises(s, t, a, p);
    FinalKept(Apply(s, t, a), steps, last, t, p);
  }

  /** A thread can always finish its operation alone. */
  lemma OperationEnds(s: State, t: nat, a: Action) returns (steps: seq<Step>, last: State)
    requires Inv(s) && Enabled(s, t, a) && Begins(a)
    ensures forall p :: Operation(s, t, a, steps, last, p)
    ensures last.threads == Apply(s, t, a).threads[t := Idle]
  {
    hide Inv, ObjectFits, FieldFits, ThreadFits, Begins;
    ThreadOf(s, t, a);
    StepKeeps(s, t, a);
    BeginPromises(s, t, a, 0);
    steps, last := Ending(Apply(s, t, a), t);
  }

  lemma Ending(s: State, t: nat) returns (steps: seq<Step>, last: State)
    requires Inv(s) && t < |s.threads|
    ensures Reaches(s, steps, last) && t < |last.threads| && last.threads[t] == Idle
    ensures forall p :: Undisturbed(s, steps, t, p)
    ensures last.threads == s.threads[t := Idle]
    decreases match s.threads[t] { case Idle => 0 case Deleting(_, _, _) => 2 case _ => 1 }
  {
    hide Inv, ObjectFits, FieldFits, ThreadFits, Sound;
    var pc := s.threads[t];
    if pc.Idle? { return [], s; }
    var a := if pc.Retaining? then Retain else if pc.Swapping? then Land else if pc.Deleting? then Delete else Finish;
    StepKeeps(s, t, a);
    NotFaulted(Apply(s, t, a));
    var rest;
    rest, last := Ending(Apply(s, t, a), t);
    steps := [Step(t, a)] + rest;
    assert steps[1..] == rest;
  }

  // ---- assignment: a temporary, a swap, and the end of the temporary

  /** Assigning a copy: the target has the source's object, the source keeps it, and the temporary, which ends,
      takes the old object with it. */
  lemma CopyAssignment(s0: State, t: nat, p: Ptr, q: Ptr, tmp: Ptr, r1: seq<Step>, s1: State, r2: seq<Step>, s2: State,
      r3: seq<Step>, s3: State)
    requires Inv(s0)
    requires forall x :: x in {p, q, tmp} ==> Operation(s0, t, Copy(tmp, q), r1, s1, x)
    requires forall x :: x in {p, q, tmp} ==> Operation(s1, t, Swap(p, tmp), r2, s2, x)
    requires forall x :: x in {p, q, tmp} ==> Operation(s2, t, Release(tmp, true), r3, s3, x)
    requires p in s0.fields
    ensures FieldOf(s3, p) == FieldOf(s3, q) == FieldOf(s0, q) && FieldOf(s3, tmp) == None
    ensures FieldOf(s2, tmp) == FieldOf(s0, p)
  {
    hide Inv, Operation;
    TemporaryIsNew(s0, t, Copy(tmp, q), r1, s1, tmp);
    Three(s0, t, Copy(tmp, q), r1, s1, p, q, tmp);
    Three(s1, t, Swap(p, tmp), r2, s2, p, q, tmp);
    Three(s2, t, Release(tmp, true), r3, s3, p, q, tmp);
  }

  /** Assigning from a moved pointer: the same, and the source is null unless it is the target itself. */
  lemma MoveAssignment(s0: State, t: nat, p: Ptr, q: Ptr, tmp: Ptr, r1: seq<Step>, s1: State, r2: seq<Step>, s2: State,
      r3: seq<Step>, s3: State)
    requires Inv(s0)
    requires forall x :: x in {p, q, tmp} ==> Operation(s0, t, Move(tmp, q), r1, s1, x)
    requires forall x :: x in {p, q, tmp} ==> Operation(s1, t, Swap(p, tmp), r2, s2, x)
    requires forall x :: x in {p, q, tmp} ==> Operation(s2, t, Release(tmp, true), r3, s3, x)
    requires p in s0.fields
    ensures FieldOf(s3, p) == FieldOf(s0, q) && FieldOf(s3, tmp) == None
    ensures p != q ==> FieldOf(s3, q) == Some(Null) && FieldOf(s2, tmp) == FieldOf(s0, p)
  {
    hide Inv, Operation;
    TemporaryIsNew(s0, t, Move(tmp, q), r1, s1, tmp);
    Three(s0, t, Move(tmp, q), r1, s1, p, q, tmp);
    Three(s1, t, Swap(p, tmp), r2, s2, p, q, tmp);
    Three(s2, t, Release(tmp, true), r3, s3, p, q, tmp);
  }

  lemma TemporaryIsNew(s: State, t: nat, a: Action, steps: seq<Step>, last: State, tmp: Ptr)
    requires Operation(s, t, a, steps, last, tmp) && (a.Copy? || a.Move?) && a.p == tmp
    ensures tmp !in s.fields && a.from in s.fields
  {
  }

  lemma Three(s: State, t: nat, a: Action, steps: seq<Step>, last: State, p: Ptr, q: Ptr, r: Ptr)
    requires Inv(s) && forall x :: x in {p, q, r} ==> Operation(s, t, a, steps, last, x)
    ensures Inv(last) && forall x :: x in {p, q, r} ==> FieldOf(last, x) == Promised(s, a, x)
  {
    hide Inv, Operation, Promised;
    OperationResult(s, t, a, steps, last, p);
    OperationResult(s, t, a, steps, last, q);
    OperationResult(s, t, a, steps, last, r);
  }

  /** An idle thread, and two pointers that are null or hold an object; nobody is copying them or the third one. */
  ghost predicate Free(s: State, t: nat, p: Ptr, q: Ptr, r: Ptr) {
    && t < |s.threads| && s.threads[t] == Idle
    && p in s.fields && (s.fields[p].Null? || s.fields[p].Holds?)
    && q in s.fields && (s.fields[q].Null? || s.fields[q].Holds?)
    && forall u :: 0 <= u < |s.threads| && s.threads[u].Retaining? && s.threads[u].source.Copied? ==>
         s.threads[u].source.from !in {p, q, r}
  }

  lemma FreeStays(s: State, t: nat, a: Action, steps: seq<Step>, last: State, p: Ptr, q: Ptr, r: Ptr)
    requires Inv(s) && Enabled(s, t, a) && Begins(a) && forall x :: Operation(s, t, a, steps, last, x)
    requires t < |s.threads| && s.threads[t] == Idle && last.threads == s.threads
    requires forall u :: 0 <= u < |s.threads| && s.threads[u].Retaining? && s.threads[u].source.Copied? ==>
      s.threads[u].source.from !in {p, q, r}
    requires Promised(s, a, p).Some? && (Promised(s, a, p).value.Null? || Promised(s, a, p).value.Holds?)
    requires Promised(s, a, q).Some? && (Promised(s, a, q).value.Null? || Promised(s, a, q).value.Holds?)
    ensures Inv(last) && Free(last, t, p, q, r)
    ensures forall x :: FieldOf(last, x) == Promised(s, a, x)
  {
    hide Inv, Enabled, Operation, Promised;
    forall x ensures Inv(last) && FieldOf(last, x) == Promised(s, a, x) { OperationResult(s, t, a, steps, last, x); }
    assert FieldOf(last, p).Some? && FieldOf(last, q).Some?;
  }

  lemma ThreadsAfter(s: State, t: nat, a: Action)
    requires Inv(s) && Enabled(s, t, a) && Begins(a)
    ensures Apply(s, t, a).threads[t := Idle] == s.threads
  {
    hide Inv;
    StepKeeps(s, t, a);
    NotFaulted(Apply(s, t, a));
  }

  /** An assignment from a free pointer to a free pointer can always be run. */
  lemma AssignmentRuns(s0: State, t: nat, p: Ptr, q: Ptr, tmp: Ptr, move: bool)
    returns (r1: seq<Step>, s1: State, r2: seq<Step>, s2: State, r3: seq<Step>, s3: State)
    requires Inv(s0) && Free(s0, t, p, q, tmp) && tmp !in s0.fields
    ensures move ==> forall x :: Operation(s0, t, Move(tmp, q), r1, s1, x)
    ensures !move ==> forall x :: Operation(s0, t, Copy(tmp, q), r1, s1, x)
    ensures forall x :: Operation(s1, t, Swap(p, tmp), r2, s2, x)
    ensures forall x :: Operation(s2, t, Release(tmp, true), r3, s3, x)
  {
    hide Inv, Operation, Apply;
    var a := if move then Move(tmp, q) else Copy(tmp, q);
    assert Enabled(s0, t, a);
    ThreadsAfter(s0, t, a);
    r1, s1 := OperationEnds(s0, t, a);
    FreeStays(s0, t, a, r1, s1, p, tmp, q);
    assert Enabled(s1, t, Swap(p, tmp));
    ThreadsAfter(s1, t, Swap(p, tmp));
    r2, s2 := OperationEnds(s1, t, Swap(p, tmp));
    FreeStays(s1, t, Swap(p, tmp), r2, s2, p, tmp, q);
    r3, s3 := OperationEnds(s2, t, Release(tmp, true));
  }

  // ---- a whole lifetime

  lemma {:induction false} ReachesOn(s: State, steps: seq<Step>, mid: State, more: seq<Step>, last: State)
    requires Reaches(s, steps, mid) && Reaches(mid, more, last)
    ensures Reaches(s, steps + more, last)
    decreases steps
  {
    hide Apply, Enabled;
    if steps == [] {
      assert steps + more == more;
    } else {
      ReachesOn(Apply(s, steps[0].thread, steps[0].action), steps[1..], mid, more, last);
      assert (steps + more)[1..] == steps[1..] + more;
    }
  }

  lemma ObjectsStep(s: State, t: nat, a: Action)
    requires Inv(s) && Enabled(s, t, a)
    ensures s.objects.Keys <= Apply(s, t, a).objects.Keys && (a.Adopt? ==> a.o in Apply(s, t, a).objects)
  {
  }

  lemma {:induction false} ObjectsKept(s: State, steps: seq<Step>, last: State)
    requires Inv(s) && Reaches(s, steps, last)
    ensures s.objects.Keys <= last.objects.Keys
    decreases steps
  {
    hide Inv, Apply, Enabled;
    if steps != [] {
      StepKeeps(s, steps[0].thread, steps[0].action);
      ObjectsStep(s, steps[0].thread, steps[0].action);
      ObjectsKept(Apply(s, steps[0].thread, steps[0].action), steps[1..], last);
    }
  }

  /** One more operation of thread t at the end of a run. */
  lemma OneMore(first: State, before: seq<Step>, s: State, t: nat, a: Action) returns (steps: seq<Step>, last: State)
    requires Inv(s) && Enabled(s, t, a) && Begins(a) && Reaches(first, before, s)
    ensures Reaches(first, steps, last) && Inv(last) && last.threads == s.threads
    ensures forall x :: FieldOf(last, x) == Promised(s, a, x)
    ensures s.objects.Keys <= last.objects.Keys && (a.Adopt? ==> a.o in last.objects)
  {
    hide Inv, Enabled, Promised, Apply, Operation, Begins;
    ThreadsAfter(s, t, a);
    var rest;
    rest, last := OperationEnds(s, t, a);
    forall x ensures Inv(last) && FieldOf(last, x) == Promised(s, a, x) { OperationResult(s, t, a, rest, last, x); }
    OperationReaches(s, t, a, rest, last, 0);
    OperationResult(s, t, a, rest, last, 0);
    ReachesOn(first, before, s, [Step(t, a)] + rest, last);
    steps := before + ([Step(t, a)] + rest);
    StepKeeps(s, t, a);
    ObjectsStep(s, t, a);
    ObjectsKept(Apply(s, t, a), rest, last);
  }

  lemma OperationReaches(s: State, t: nat, a: Action, rest: seq<Step>, last: State, p: Ptr)
    requires Operation(s, t, a, rest, last, p)
    ensures Reaches(Apply(s, t, a), rest, last) && Reaches(s, [Step(t, a)] + rest, last)
  {
    hide Apply;
    assert ([Step(t, a)] + rest)[1..] == rest;
  }

  lemma InitialInv(first: State)
    requires Initial(first)
    ensures Inv(first) && Quiet(first)
  {
  }

  /** Such runs exist: an object is adopted, its pointer copied, and both pointers end; then it was deleted once. */
  lemma Lifetime(first: State, t: nat, p: Ptr, q: Ptr, o: Obj) returns (steps: seq<Step>, last: State)
    requires Initial(first) && t < |first.threads| && p != q
    ensures Reaches(first, steps, last) && Quiet(last) && last.fields == map[]
    ensures o in last.objects && last.objects[o].deletions == 1
  {
    hide Inv, Apply;
    InitialInv(first);
    var s1, s2, s3;
    steps, s1 := OneMore(first, [], first, t, Adopt(p, o));
    assert FieldOf(s1, p) == Some(Holds(o)) && FieldOf(s1, q) == None;
    steps, s2 := OneMore(first, steps, s1, t, Copy(q, p));
    assert FieldOf(s2, p) == Some(Holds(o)) && FieldOf(s2, q) == Some(Holds(o));
    steps, s3 := OneMore(first, steps, s2, t, Release(p, true));
    assert FieldOf(s3, p) == None && FieldOf(s3, q) == Some(Holds(o));
    steps, last := OneMore(first, steps, s3, t, Release(q, true));
    forall x ensures x !in last.fields {
      assert FieldOf(s1, x) == Promised(first, Adopt(p, o), x);
      assert FieldOf(s2, x) == Promised(s1, Copy(q, p), x);
      assert FieldOf(s3, x) == Promised(s2, Release(p, true), x);
      assert FieldOf(last, x) == Promised(s3, Release(q, true), x);
    }
    DeletedExactlyOnce(first, steps, last, o);
  }

  /** Ending or resetting a pointer gives back one count of its object. */
  lemma ReleaseCounts(s: State, t: nat, p: Ptr, destroy: bool, o: Obj)
    requires Inv(s) && Enabled(s, t, Release(p, destroy)) && FieldOf(s, p) == Some(Holds(o))
    ensures var after := Apply(s, t, Release(p, destroy));
      o in s.objects && o in after.objects && after.objects[o].count == s.objects[o].count - 1
  {
    StepKeeps(s, t, Release(p, destroy));
    HoldersBounds(s, p);
  }
}
