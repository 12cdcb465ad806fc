/** The table of patch sites, what undoing it amounts to, and when the jumps in it stand. Addresses are
    integers and 0 is the null pointer. */
module PatchTables {
  import opened Jumps

  datatype Mode = Unpatched | Patched | PatchedTerm

  /** One patch site. `fd` is the function or import slot, and after the first save the start of the
      saved bytes; the jump size is the number of bytes saved. */
  datatype PatchData = PatchData(
    usePatchedImports: bool, fd: int, modeStore: Mode,
    storeFunc: int, storeSize: int, functionOffset: int, saved: seq<Byte>)

  datatype Entry = Entry(
    named: bool, hasTerm: bool, targetAddr: int, termAddr: int, patches: seq<PatchData>)

  const PATCH_DATA_COUNT: nat := 4
  const PATCH_COUNT: nat := 56

  predicate IsNear(dist: int) {
    -0x7fff_fff1 < dist < 0x7fff_fff0
  }

  predicate IsAddress(a: int) {
    0 <= a < 0x1_0000_0000_0000_0000
  }

  predicate IsPadding(b: Byte) {
    b == INT3 || b == NOP
  }

  /** A site nothing was done to yet; nothing is mapped in the sixteen bytes above null. */
  predicate Fresh(p: PatchData) {
    && p.modeStore == Unpatched && p.saved == [] && p.functionOffset == 0 && (p.fd == 0 || p.fd > 16)
    && IsAddress(p.storeFunc)
  }

  predicate FreshEntry(e: Entry) {
    && |e.patches| == PATCH_DATA_COUNT && IsAddress(e.targetAddr) && IsAddress(e.termAddr)
    && forall a :: 0 <= a < |e.patches| ==> Fresh(e.patches[a])
  }

  /** A site at any time: nothing is saved yet, or the address is where the saved bytes belong. */
  predicate Tidy(p: PatchData) {
    && (p.fd == 0 ==> p.modeStore == Unpatched && p.saved == [])
    && (p.saved == [] ==> p.fd == 0 || p.fd > 16)
    && p.fd >= 0 && IsAddress(p.storeFunc)
  }

  predicate TidySites(patches: seq<PatchData>) {
    |patches| == PATCH_DATA_COUNT && forall a :: 0 <= a < |patches| ==> Tidy(patches[a])
  }

  predicate TidyEntry(e: Entry) {
    && TidySites(e.patches) && IsAddress(e.targetAddr) && IsAddress(e.termAddr)
    && (e.patches[0].fd == 0 ==> Idle(e))
  }

  ghost predicate TidyTable(table: seq<Entry>) {
    |table| >= PATCH_COUNT && forall i :: 0 <= i < PATCH_COUNT ==> TidyEntry(table[i])
  }

  ghost predicate FreshTable(table: seq<Entry>) {
    |table| >= PATCH_COUNT && forall i :: 0 <= i < PATCH_COUNT ==> FreshEntry(table[i])
  }

  predicate Idle(e: Entry) {
    forall a :: 0 <= a < |e.patches| ==> e.patches[a].modeStore == Unpatched
  }

  predicate AllNamed(table: seq<Entry>) {
    forall i :: 0 <= i < PATCH_COUNT && i < |table| ==> table[i].named
  }

  /** Entry k has no name, and nothing is patched from there on. */
  ghost predicate IdleFrom(table: seq<Entry>, k: nat) {
    |table| >= PATCH_COUNT && k < PATCH_COUNT && !table[k].named && forall i :: k <= i < PATCH_COUNT ==> Idle(table[i])
  }

  ghost predicate PaddedBy(m: Memory, f: int, n: nat) {
    forall x :: f - n <= x < f ==> IsPadding(m(x))
  }

  function SlotBytes(slot: int): (r: set<int>)
    ensures forall x :: x in r <==> slot <= x < slot + 8
  {
    {slot, slot + 1, slot + 2, slot + 3, slot + 4, slot + 5, slot + 6, slot + 7}
  }

  ghost predicate Int3Run(m: Memory, at: int) {
    forall x :: at <= x < at + 18 ==> m(x) == INT3
  }

  // ---- what undoing amounts to

  function Restored(p: PatchData, m: Memory): Memory {
    if p.saved == [] then m else Write(m, p.fd, p.saved)
  }

  function Undo(p: PatchData, m: Memory): Memory {
    if p.modeStore == Unpatched then m else Restored(p, m)
  }

  /** Undoes sites k - 1, ..., 0 of an entry. */
  function UndoEntry(patches: seq<PatchData>, k: nat, m: Memory): Memory
    requires k <= |patches|
  {
    if k == 0 then m else UndoEntry(patches, k - 1, Undo(patches[k - 1], m))
  }

  /** Undoes entries k - 1, ..., 0 of the table. */
  function UndoTable(table: seq<Entry>, k: nat, m: Memory): Memory
    requires k <= |table|
    decreases k
  {
    if k == 0 then m
    else UndoTable(table, k - 1, UndoEntry(table[k - 1].patches, |table[k - 1].patches|, m))
  }

  /** Bytes saved before the region was overwritten bring it back. */
  lemma RestoredSaved(q: PatchData, before: Memory, after: Memory, size: nat)
    requires size > 0 && q.saved == Read(before, q.fd, size) && Outside(before, after, q.fd, size)
    ensures forall except :: Agree(Restored(q, after), before, except)
  {
    forall except ensures Agree(Restored(q, after), before, except) {
      forall x | x !in except ensures Restored(q, after)(x) == before(x) { RestoredByte(q, before, after, size, x); }
    }
  }

  lemma RestoredByte(q: PatchData, before: Memory, after: Memory, size: nat, x: int)
    requires size > 0 && q.saved == Read(before, q.fd, size) && Outside(before, after, q.fd, size)
    ensures Restored(q, after)(x) == before(x)
  {
    if q.fd <= x < q.fd + size { assert q.saved[x - q.fd] == before(q.fd + (x - q.fd)); }
  }

  lemma {:induction false} UndoEntryAgree(patches: seq<PatchData>, k: nat, m: Memory, n: Memory, except: set<int>)
    requires k <= |patches| && Agree(m, n, except)
    ensures Agree(UndoEntry(patches, k, m), UndoEntry(patches, k, n), except)
    decreases k
  {
    if k > 0 { UndoEntryAgree(patches, k - 1, Undo(patches[k - 1], m), Undo(patches[k - 1], n), except); }
  }

  lemma {:induction false} UndoTableAgree(table: seq<Entry>, k: nat, m: Memory, n: Memory, except: set<int>)
    requires k <= |table| && Agree(m, n, except)
    ensures Agree(UndoTable(table, k, m), UndoTable(table, k, n), except)
    decreases k
  {
    if k > 0 {
      var patches := table[k - 1].patches;
      UndoEntryAgree(patches, |patches|, m, n, except);
      UndoTableAgree(table, k - 1, UndoEntry(patches, |patches|, m), UndoEntry(patches, |patches|, n), except);
    }
  }

  lemma {:induction false} UndoEntryPrefix(p: seq<PatchData>, q: seq<PatchData>, k: nat, m: Memory)
    requires k <= |p| && k <= |q| && forall a :: 0 <= a < k ==> p[a] == q[a]
    ensures UndoEntry(p, k, m) == UndoEntry(q, k, m)
    decreases k
  {
    if k > 0 { UndoEntryPrefix(p, q, k - 1, Undo(p[k - 1], m)); }
  }

  lemma {:induction false} UndoTablePrefix(t: seq<Entry>, u: seq<Entry>, k: nat, m: Memory)
    requires k <= |t| && k <= |u| && forall i :: 0 <= i < k ==> t[i] == u[i]
    ensures UndoTable(t, k, m) == UndoTable(u, k, m)
    decreases k
  {
    if k > 0 { UndoTablePrefix(t, u, k - 1, UndoEntry(t[k - 1].patches, |t[k - 1].patches|, m)); }
  }

  /** Sites that are not patched undo to nothing. */
  lemma {:induction false} UndoEntryIdle(patches: seq<PatchData>, i: nat, k: nat, m: Memory)
    requires i <= k <= |patches| && forall a :: i <= a < k ==> patches[a].modeStore == Unpatched
    ensures UndoEntry(patches, k, m) == UndoEntry(patches, i, m)
    decreases k
  {
    if i < k { UndoEntryIdle(patches, i, k - 1, m); }
  }

  lemma {:induction false} UndoTableIdle(table: seq<Entry>, i: nat, k: nat, m: Memory)
    requires i <= k <= |table| && forall j :: i <= j < k ==> Idle(table[j])
    ensures UndoTable(table, k, m) == UndoTable(table, i, m)
    decreases k
  {
    if i < k {
      var patches := table[k - 1].patches;
      UndoEntryIdle(patches, 0, |patches|, m);
      UndoTableIdle(table, i, k - 1, m);
    }
  }

  lemma ImportRestored(q: PatchData, before: Memory, addr: int, except: set<int>)
    requires q.saved == Read(before, q.fd, 8)
    ensures Agree(Restored(q, Write(before, q.fd, LittleEndian(addr, 8))), before, except)
  {
    hide LittleEndian;
    ImportWritten(before, q.fd, addr);
    RestoredSaved(q, before, Write(before, q.fd, LittleEndian(addr, 8)), 8);
  }

  lemma AgreeTrans(l: Memory, m: Memory, n: Memory, some: set<int>, others: set<int>, all: set<int>)
    requires Agree(l, m, some) && Agree(m, n, others) && some <= all && others <= all
    ensures Agree(l, n, all)
  {
  }

  /** One more site to undo: first that site, then the ones before it. */
  lemma SiteUndone(p: seq<PatchData>, q: seq<PatchData>, k: nat, m: Memory, n: Memory, start: Memory, some: set<int>,
      all: set<int>)
    requires k < |p| && k < |q| && forall a :: 0 <= a < k ==> p[a] == q[a]
    requires some <= all && Agree(UndoEntry(p, k, m), start, some) && Agree(Undo(q[k], n), m, all)
    ensures Agree(UndoEntry(q, k + 1, n), start, all)
  {
    UndoEntryAgree(q, k, Undo(q[k], n), m, all);
    UndoEntryPrefix(p, q, k, m);
  }

  /** One more entry to undo. */
  lemma EntryUndone(t: seq<Entry>, u: seq<Entry>, k: nat, m: Memory, n: Memory, start: Memory, some: set<int>,
      all: set<int>)
    requires k < |t| && k < |u| && forall i :: 0 <= i < k ==> t[i] == u[i]
    requires some <= all && Agree(UndoTable(t, k, m), start, some)
    requires Agree(UndoEntry(u[k].patches, |u[k].patches|, n), m, all)
    ensures Agree(UndoTable(u, k + 1, n), start, all)
  {
    UndoTableAgree(u, k, UndoEntry(u[k].patches, |u[k].patches|, n), m, all);
    UndoTablePrefix(t, u, k, m);
  }

  lemma UndoTableStep(table: seq<Entry>, k: nat, m: Memory)
    requires k < |table|
    ensures UndoTable(table, k + 1, m) == UndoTable(table, k, UndoEntry(table[k].patches, |table[k].patches|, m))
  {
  }

  lemma AgreeSelf(m: Memory, except: set<int>)
    ensures Agree(m, m, except)
  {
  }

  lemma UndoEntryNone(patches: seq<PatchData>, m: Memory)
    ensures UndoEntry(patches, 0, m) == m
  {
  }

  lemma UndoTableNone(table: seq<Entry>, m: Memory)
    ensures UndoTable(table, 0, m) == m
  {
  }

  /** Bytes that became slots were INT3. */
  ghost predicate SlotsFree(before: Memory, was: set<int>, now: set<int>) {
    was <= now && forall x :: x in now && x !in was ==> before(x) == INT3
  }

  lemma SlotsFreeMore(before: Memory, was: set<int>, slot: int)
    requires forall x :: x in SlotBytes(slot) ==> before(x) == INT3
    ensures SlotsFree(before, was, was + SlotBytes(slot))
  {
  }

  lemma SlotsSame(before: Memory, was: set<int>)
    ensures SlotsFree(before, was, was)
  {
  }

  lemma SlotWritten(m: Memory, slot: int, detour: int)
    ensures Holds(Write(m, slot, LittleEndian(detour, 8)), slot, LittleEndian(detour, 8))
    ensures Agree(Write(m, slot, LittleEndian(detour, 8)), m, SlotBytes(slot))
  {
  }

  lemma FreshIsTidy(table: seq<Entry>)
    requires FreshTable(table)
    ensures TidyTable(table)
  {
  }

  // ---- targets and addresses in memory

  function TargetOf(e: Entry, mode: Mode): int {
    if mode == Unpatched then 0
    else if mode == PatchedTerm && e.hasTerm then e.termAddr
    else e.targetAddr
  }

  /** The target by the mode alone, as a site is given it. */
  function RawTarget(e: Entry, mode: Mode): int {
    if mode == Patched then e.targetAddr else e.termAddr
  }

  ghost predicate AllInt3(m: Memory, block: int) {
    forall y :: block <= y < block + 8 ==> m(y) == INT3
  }

  predicate IsTarget(a: int) {
    0 <= a < 0x100_0000_0000_0000
  }

  lemma TopZero(target: int)
    requires IsTarget(target)
    ensures LittleEndian(target, 8)[7] == 0
  {
    var v := target / 256 / 256 / 256 / 256 / 256 / 256 / 256;
    assert v == 0;
    var b1 := LittleEndian(target / 256 / 256 / 256 / 256 / 256 / 256 / 256, 1);
    var b2 := LittleEndian(target / 256 / 256 / 256 / 256 / 256 / 256, 2);
    var b4 := LittleEndian(target / 256 / 256 / 256 / 256, 4);
    assert b1[0] == 0 && b2[1] == 0 && b4[3] == 0;
  }

  /** An address whose highest byte is zero is not eight INT3 bytes. */
  lemma TopByte(m: Memory, at: int, target: int)
    requires IsTarget(target) && Holds(m, at, LittleEndian(target, 8))
    ensures m(at + 7) == 0 && !AllInt3(m, at)
  {
    hide LittleEndian;
    TopZero(target);
  }

  lemma UnchangedBehind(before: Memory, after: Memory, at: int, size: nat)
    requires Outside(before, after, at, size)
    ensures forall x :: x >= at + size ==> after(x) == before(x)
  {
  }

  lemma ImportWritten(m: Memory, at: int, addr: int)
    ensures Holds(Write(m, at, LittleEndian(addr, 8)), at, LittleEndian(addr, 8))
    ensures Outside(m, Write(m, at, LittleEndian(addr, 8)), at, 8)
  {
  }

  lemma NothingRestored(p: PatchData, m: Memory)
    requires p.saved == []
    ensures Restored(p, m) == m
  {
  }

  lemma RestoredSame(p: PatchData, q: PatchData, m: Memory)
    requires q.fd == p.fd && q.saved == p.saved
    ensures Restored(q, m) == Restored(p, m)
  {
  }

  ghost predicate Zeroed(m: Memory) {
    forall x :: m(x) == 0
  }

  lemma {:induction false} ZeroLoad(m: Memory, at: int, n: nat)
    requires Zeroed(m)
    ensures Load(m, at, n) == 0
    decreases n
  {
    if n > 0 { ZeroLoad(m, at + 1, n - 1); }
  }

  lemma ZerosUnpadded(m: Memory, f: int)
    requires Zeroed(m)
    ensures !PaddedBy(m, f, 5) && !PaddedBy(m, f, 8) && !PaddedBy(m, f, 14)
  {
    assert !IsPadding(m(f - 1));
  }

  lemma NoRunInZeros(m: Memory, at: int)
    ensures Zeroed(m) ==> !Int3Run(m, at)
  {
    assert Int3Run(m, at) ==> m(at) == INT3;
  }

  lemma NoPadding(m: Memory, f: int)
    ensures PaddedBy(m, f, 0)
  {
  }

  lemma ByteShows(before: Memory, after: Memory, x: int)
    requires Zeroed(before) && after(x) != 0
    ensures !Agree(after, before, {})
  {
  }

  /** An address other than null shows in memory that was all zero. */
  lemma AddressShows(m: Memory, at: int, addr: int)
    requires Zeroed(m) && IsAddress(addr) && addr != 0
    ensures !Agree(Write(m, at, LittleEndian(addr, 8)), m, {})
  {
    hide LittleEndian, Load, Zeroed;
    var after := Write(m, at, LittleEndian(addr, 8));
    if Agree(after, m, {}) {
      ImportWritten(m, at, addr);
      HoldsKept(after, m, at, LittleEndian(addr, 8));
      AddressStored(m, at, addr);
      ZeroLoad(m, at, 8);
    }
  }

  /** The first site counts as patched and its bytes are saved. */
  predicate Retained(e: Entry) {
    && |e.patches| == PATCH_DATA_COUNT && e.patches[0].fd != 0
    && e.patches[0].modeStore != Unpatched && e.patches[0].saved != []
  }

  /** No bytes are saved for any site. */
  predicate Bare(e: Entry) {
    forall a :: 0 <= a < |e.patches| ==> e.patches[a].saved == []
  }

  ghost predicate BareTable(t: seq<Entry>) {
    |t| >= PATCH_COUNT && forall i :: 0 <= i < PATCH_COUNT ==> Bare(t[i])
  }
}
