/** What single sites and pairs of sites come to: patched together, patched again after undoing, and given another
    target. */
module DetourSites {
  import opened Wrappers
  import opened Jumps
  import opened PatchTables
  import opened Standing
  import opened Detours

  // ---- how close two sites may be

  /** The site does what it is for. */
  ghost predicate Works(m: Memory, p: PatchData, target: int) {
    if p.usePatchedImports then Load(m, p.fd, 8) == target else Lands(m, p.fd, target)
  }

  lemma StandingWorks(m: Memory, p: PatchData, offset: int, target: int)
    requires Stands(m, p, offset, target) && IsTarget(target) && p.fd != 0 && target != 0
    ensures Works(m, p, target)
  {
    hide Firm, Arrives, Lands, Load, Holds;
    if p.usePatchedImports {
      AddressStored(m, p.fd, target);
    } else {
      FirmArrives(m, p.fd, offset, target);
      ArrivesLands(m, p.fd, offset, target);
    }
  }

  /** An import slot that is aligned and not all INT3, or fourteen bytes of code of which no two neighbours are. */
  ghost predicate Prepared(m: Memory, p: PatchData) {
    if p.usePatchedImports then p.fd % 8 == 0 && exists x :: p.fd <= x < p.fd + 8 && m(x) != 0xCC
    else forall x :: p.fd <= x < p.fd + 13 ==> m(x) != 0xCC || m(x + 1) != 0xCC
  }

  /** The store region, if there is one, is within 32 bits of the jump. */
  predicate Reached(p: PatchData) {
    || p.storeFunc == 0
    || (p.storeFunc - p.fd - 6 >= -0x8000_0000 && p.storeFunc + p.storeSize - p.fd - 6 < 0x8000_0000)
  }

  /** Functions 28 bytes apart, import slots 8, an import slot 22 bytes before a function or 14 behind. */
  predicate KeepsDistance(p: PatchData, q: PatchData) {
    var d := q.fd - p.fd;
    if p.usePatchedImports then (if q.usePatchedImports then d >= 8 || d <= -8 else d >= 22 || d <= -14)
    else if q.usePatchedImports then d >= 14 || d <= -22
    else d >= 28 || d <= -28
  }

  lemma PreparedReady(m: Memory, p: PatchData)
    ensures p.fd != 0 && Prepared(m, p) ==> Ready(m, p)
    ensures Reached(p) ==> InReach(p)
  {
  }

  /** Two sites at a distance both work when both are patched, in either order. */
  method TwoSites(before: Memory, p: PatchData, q: PatchData, a: int, b: int) returns (after: Memory)
    requires Fresh(p) && Fresh(q) && p.fd != 0 && q.fd != 0
    requires 0 < a < 0x100_0000_0000_0000 && 0 < b < 0x100_0000_0000_0000
    requires Prepared(before, p) && Prepared(before, q) && Reached(p) && Reached(q)
    ensures KeepsDistance(p, q) ==> Works(after, p, a) && Works(after, q, b)
  {
    hide Stands, Ready, Prepared, SitePatched, InReach, Reached, Patcher.Redirected, Agree, Works, Clears, Zeroed;
    PreparedReady(before, p);
    PreparedReady(before, q);
    var patcher := new Patcher(_ => true, before, []);
    var p' := patcher.Patch(p, a);
    ghost var mid := patcher.mem;
    var q' := patcher.Patch(q, b);
    after := patcher.mem;
    if KeepsDistance(p, q) {
      BothStand(before, mid, after, p, p'.functionOffset, a, q, q'.functionOffset, b);
      StandingWorks(after, p, p'.functionOffset, a);
      StandingWorks(after, q, q'.functionOffset, b);
    }
  }

  lemma BothStand(before: Memory, mid: Memory, after: Memory, p: PatchData, i: int, a: int, q: PatchData, j: int,
      b: int)
    requires p.fd != 0 && q.fd != 0 && Apart(p, q) && Ready(before, q) && IsTarget(a)
    requires SitePatched(before, mid, p, i) && SitePatched(mid, after, q, j) && Stands(mid, p, i, a)
    requires Ready(mid, q) ==> Stands(after, q, j, b)
    ensures Stands(after, p, i, a) && Stands(after, q, j, b)
  {
    hide SiteFrame, Ready, Stands, Clears, Claimable;
    assert Apart(q, p);
    ReadyKept(before, mid, q, p);
    ClaimClears(before, p, i, q);
    StandsKept(mid, after, p, i, a, q);
  }

  const LOWER: int := 100
  const LOW: int := 0x100_0000_0000
  const HIGH: int := 0x200_0000_0000

  function FunctionAt(f: int): PatchData {
    PatchData(false, f, Unpatched, 0, 0, 0, [])
  }

  /** Nowhere an INT3, and NOPs in [from, to) only. */
  function NopsIn(from: int, to: int): Memory {
    x => if from <= x < to then NOP else 0
  }

  lemma BytesOf()
    ensures LittleEndian(LOW, 8) == [0, 0, 0, 0, 0, 1, 0, 0]
    ensures LittleEndian(0, 4) == [0, 0, 0, 0] && LittleEndian(-16, 1) == [240]
  {
    assert LittleEndian(0x1, 3) == [1, 0, 0];
    assert LittleEndian(0x100, 4) == [0, 1, 0, 0];
    assert LittleEndian(0x1_0000, 5) == [0, 0, 1, 0, 0];
    assert LittleEndian(0x100_0000, 6) == [0, 0, 0, 1, 0, 0];
    assert LittleEndian(0x1_0000_0000, 7) == [0, 0, 0, 0, 1, 0, 0];
  }

  lemma PaddedLast(m: Memory, f: int, n: nat)
    requires n > 0 && !IsPadding(m(f - 1))
    ensures !PaddedBy(m, f, n)
  {
    assert f - n <= f - 1 < f;
  }

  lemma {:induction false} LoadAtLeast(m: Memory, at: int, n: nat, k: nat)
    requires k < n
    ensures Load(m, at, n) >= m(at + k)
    decreases n
  {
    if k > 0 { LoadAtLeast(m, at + 1, n - 1, k - 1); }
  }

  lemma {:induction false} LoadHolds(m: Memory, at: int, n: nat)
    ensures Holds(m, at, LittleEndian(Load(m, at, n), n))
    decreases n
  {
    if n > 0 {
      LoadHolds(m, at + 1, n - 1);
      var all, rest := LittleEndian(Load(m, at, n), n), LittleEndian(Load(m, at + 1, n - 1), n - 1);
      assert all == [m(at)] + rest;
      forall i | 0 <= i < n ensures m(at + i) == all[i] {
        if i > 0 { assert m(at + 1 + (i - 1)) == rest[i - 1]; }
      }
    }
  }

  /** The upper jump starts inside the lower one: it destroys the second byte, the displacement or the address. */
  lemma LowerBroken(mid: Memory, after: Memory, d: nat)
    requires 1 <= d <= 13 && EntryFar(mid, LOWER, LOW) && EntryFar(after, LOWER + d, HIGH)
    requires forall x :: LOWER <= x < LOWER + d ==> after(x) == mid(x)
    requires forall x :: x < LOWER || LOWER + 27 <= x ==> after(x) == 0
    ensures !Lands(after, LOWER, LOW)
  {
    hide LittleEndian, Load, Signed;
    BytesOf();
    NoDisplacement(mid, LOWER, LOW);
    NoDisplacement(after, LOWER + d, HIGH);
    if 2 <= d < 6 {
      DisplacementBroken(after, d);
    } else if d >= 6 {
      AddressBroken(after, d);
    }
  }

  lemma NoDisplacement(m: Memory, f: int, target: int)
    requires EntryFar(m, f, target)
    ensures forall x :: f + 2 <= x < f + 6 ==> m(x) == 0
  {
    hide LittleEndian;
    BytesOf();
    forall x | f + 2 <= x < f + 6 ensures m(x) == 0 { assert m(f + 2 + (x - f - 2)) == LittleEndian(0, 4)[x - f - 2]; }
  }

  /** The displacement leads to zeros, and so to address 0, where there is no jump. */
  lemma DisplacementBroken(m: Memory, d: nat)
    requires 2 <= d < 6 && m(LOWER + d) == 0xFF && (d < 5 ==> m(LOWER + d + 1) == 0x25)
    requires m(LOWER) == 0xFF && m(LOWER + 1) == 0x25
    requires forall x :: LOWER + 2 <= x < LOWER + d ==> m(x) == 0
    requires forall x :: LOWER + d + 2 <= x < LOWER + 6 ==> m(x) == 0
    requires forall x :: x < LOWER || LOWER + 27 <= x ==> m(x) == 0
    ensures !Lands(m, LOWER, LOW)
  {
    hide Load, Signed;
    FourBytes(m, LOWER + 2);
    WrongWay(Load(m, LOWER + 2, 4));
    ZerosLoad(m, LOWER + 6 + Signed(Load(m, LOWER + 2, 4), 4), 8);
    assert Hop(m, LOWER) == Some(0) && Hop(m, 0) == None;
  }

  lemma WrongWay(v: nat)
    ensures v in {0x25FF, 0x25_FF00, 0x25FF_0000} ==> Signed(v, 4) == v
    ensures v == 0xFF00_0000 ==> Signed(v, 4) == -0x100_0000
  {
    assert Pow256(1) == 256;
    assert Pow256(2) == 0x1_0000;
    assert Pow256(3) == 0x100_0000;
  }

  lemma FourBytes(m: Memory, at: int)
    ensures Load(m, at, 4) == m(at) + 256 * m(at + 1) + 0x1_0000 * m(at + 2) + 0x100_0000 * m(at + 3)
  {
    assert Load(m, at + 3, 1) == m(at + 3);
    assert Load(m, at + 2, 2) == m(at + 2) + 256 * m(at + 3);
    assert Load(m, at + 1, 3) == m(at + 1) + 256 * m(at + 2) + 0x1_0000 * m(at + 3);
  }

  lemma {:induction false} ZerosLoad(m: Memory, at: int, n: nat)
    requires forall x :: at <= x < at + n ==> m(x) == 0
    ensures Load(m, at, n) == 0
    decreases n
  {
    if n > 0 { ZerosLoad(m, at + 1, n - 1); }
  }

  /** The address has a byte 0xFF, so it is another one, and beyond both jumps. */
  lemma AddressBroken(m: Memory, d: nat)
    requires 6 <= d <= 13 && m(LOWER + d) == 0xFF && m(LOWER) == 0xFF && m(LOWER + 1) == 0x25
    requires forall x :: LOWER + 2 <= x < LOWER + 6 ==> m(x) == 0
    requires forall x :: x < LOWER || LOWER + 27 <= x ==> m(x) == 0
    ensures !Lands(m, LOWER, LOW)
  {
    hide LittleEndian, Load;
    BytesOf();
    var v := Load(m, LOWER + 6, 8);
    ZerosLoad(m, LOWER + 2, 4);
    assert Signed(0, 4) == 0;
    LoadAtLeast(m, LOWER + 6, 8, d - 6);
    assert m(LOWER + 6 + (d - 6)) == 0xFF;
    LoadHolds(m, LOWER + 6, 8);
    assert LittleEndian(LOW, 8)[d - 6] != 0xFF;
    assert v != LOW;
    assert Hop(m, LOWER) == Some(v) && Hop(m, v) == None;
  }

  /** The lower jump overwrites the start of the jump in the padding of the upper one. */
  lemma UpperBroken(m: Memory, d: nat)
    requires 14 <= d <= 27 && EntryFar(m, LOWER, LOW)
    requires m(LOWER + d) == 0xEB && Holds(m, LOWER + d + 1, LittleEndian(-16, 1))
    ensures !Lands(m, LOWER + d, HIGH)
  {
    hide LittleEndian, Load, Signed;
    BytesOf();
    var k := d - 14;
    ShortHop(m, LOWER + d, -16);
    assert Hop(m, LOWER + d) == Some(LOWER + k);
    if k == 0 {
      FarHop(m, LOWER, 0, LOW);
    } else if 2 <= k < 6 {
      assert m(LOWER + 2 + (k - 2)) == LittleEndian(0, 4)[k - 2];
    } else if k >= 6 {
      assert m(LOWER + 6 + (k - 6)) == LittleEndian(LOW, 8)[k - 6];
    }
  }

  /** Below 28 bytes, at every distance, some code and some order of patching make one of two functions fail. */
  method TooClose(d: nat) returns (before: Memory, after: Memory)
    requires 1 <= d <= 27
    ensures Prepared(before, FunctionAt(LOWER)) && Prepared(before, FunctionAt(LOWER + d))
    ensures !(Works(after, FunctionAt(LOWER), LOW) && Works(after, FunctionAt(LOWER + d), HIGH))
  {
    hide Lands, PaddedBy, PaddedFar, EntryFar, BehindFar, Patcher.Redirected, Patcher.Undoable, Zeroed;
    before := if d < 14 then NopsIn(0, 0) else NopsIn(LOWER + d - 14, LOWER + d);
    var patcher := new Patcher(_ => true, before, []);
    NopsPadding(d);
    if d < 14 {
      var _ := patcher.PatchFar(FunctionAt(LOWER), LOW);
      ghost var mid := patcher.mem;
      InsideJump(mid, d);
      PaddedLast(mid, LOWER + d, 8);
      PaddedLast(mid, LOWER + d, 14);
      var _ := patcher.PatchFar(FunctionAt(LOWER + d), HIGH);
      after := patcher.mem;
      LowerBroken(mid, after, d);
    } else {
      var _ := patcher.PatchFar(FunctionAt(LOWER + d), HIGH);
      ghost var mid := patcher.mem;
      PaddedLast(mid, LOWER, 8);
      PaddedLast(mid, LOWER, 14);
      var _ := patcher.PatchFar(FunctionAt(LOWER), LOW);
      after := patcher.mem;
      UpperKept(mid, after, d);
      UpperBroken(after, d);
    }
  }

  lemma NopsPadding(d: nat)
    requires 1 <= d <= 27
    ensures !PaddedBy(NopsIn(0, 0), LOWER, 8) && !PaddedBy(NopsIn(0, 0), LOWER, 14)
    ensures d >= 14 ==> PaddedBy(NopsIn(LOWER + d - 14, LOWER + d), LOWER + d, 14)
  {
    PaddedLast(NopsIn(0, 0), LOWER, 8);
    PaddedLast(NopsIn(0, 0), LOWER, 14);
  }

  /** No byte of the lower jump but the last is padding. */
  lemma InsideJump(m: Memory, d: nat)
    requires 1 <= d <= 13 && EntryFar(m, LOWER, LOW)
    ensures !IsPadding(m(LOWER + d - 1))
  {
    hide LittleEndian;
    BytesOf();
    forall x | LOWER <= x < LOWER + 14 ensures !IsPadding(m(x)) {
      if LOWER + 2 <= x < LOWER + 6 {
        assert m(LOWER + 2 + (x - LOWER - 2)) == LittleEndian(0, 4)[x - LOWER - 2];
      } else if LOWER + 6 <= x {
        assert m(LOWER + 6 + (x - LOWER - 6)) == LittleEndian(LOW, 8)[x - LOWER - 6];
      }
    }
  }

  lemma UpperKept(mid: Memory, after: Memory, d: nat)
    requires 14 <= d <= 27 && PaddedFar(mid, LOWER + d, HIGH) && Outside(mid, after, LOWER, 14)
    ensures after(LOWER + d) == 0xEB && Holds(after, LOWER + d + 1, LittleEndian(-16, 1))
  {
    hide LittleEndian, FarJump;
    HoldsKept(mid, after, LOWER + d + 1, LittleEndian(-16, 1));
  }

  // ---- patching a site again

  /** Control enters neither the old code at f nor the detour's address, read as code, as one of the three jumps. */
  predicate NoJump(m: Memory, f: int, detour: int) {
    m(f) !in {0xE9, 0xEB, 0xFF} && m(f + 1) != 0x25 && LittleEndian(detour, 8)[2] !in {0xE9, 0xEB, 0xFF}
  }

  /** What the second patch at `at` leaves of the code from f on: all of it, or a jump from `at` runs into it. */
  ghost predicate SecondPatch(before: Memory, after: Memory, at: int, f: int, detour: int) {
    if IsNear(detour - at) || PaddedBy(before, at, 14) || at + 14 <= f then forall x :: x >= f ==> after(x) == before(x)
    else if PaddedBy(before, at, 8) then BehindFar(after, at, detour) && Outside(before, after, at - 8, 14)
    else EntryFar(after, at, detour) && Outside(before, after, at, 14)
  }

  /** A function is patched, undone and patched again. The first save moves the address of the site into the padding it
      uses, and undoing does not move it back. The function leads to the detour again exactly when the address did not
      move; when it moved, the second jump is in front of the function, or runs into its code. */
  method SecondEnable(before: Memory, f: int, detour: int) returns (first: Memory, undone: Memory, second: Memory)
    requires f > 16 && IsAddress(detour)
    ensures Lands(first, f, detour) && Agree(undone, before, {})
    ensures Moved(before, f, detour) == 0 ==> Lands(second, f, detour)
    ensures Moved(before, f, detour) != 0 ==> SecondPatch(before, second, f - Moved(before, f, detour), f, detour)
    ensures NoJump(before, f, detour) ==> (Lands(second, f, detour) <==> Moved(before, f, detour) == 0)
  {
    hide Lands, PaddedBy, Restored, Zeroed, SiteFrame, Arrives, Firm, Claimable, NoPairs, FarWritten, Write,
      SecondPatch;
    hide NoJump, Agree, ThroughSlot, Holds, Outside;
    var p := FunctionAt(f);
    var patcher := new Patcher(_ => true, before, []);
    var q := patcher.PatchFunction(p, detour);
    first := patcher.mem;
    patcher.Unpatch(q);
    undone := patcher.mem;
    SamePadding(before, undone);
    var _ := patcher.PatchFunction(q, detour);
    second := patcher.mem;
    var at := f - Moved(before, f, detour);
    if at < f {
      SecondIs(before, undone, second, at, f, detour);
      PaddedTwice(before, f);
      if NoJump(before, f, detour) { SecondMisses(before, second, at, f, detour); }
    }
  }

  lemma PaddedTwice(m: Memory, f: int)
    ensures PaddedBy(m, f, 8) && PaddedBy(m, f - 8, 8) ==> PaddedBy(m, f, 14)
  {
  }

  lemma SamePadding(m: Memory, n: Memory)
    requires Agree(n, m, {})
    ensures forall f, k: nat :: PaddedBy(n, f, k) <==> PaddedBy(m, f, k)
  {
  }

  lemma SecondIs(before: Memory, undone: Memory, second: Memory, at: int, f: int, detour: int)
    requires at < f && Agree(undone, before, {})
    requires IsNear(detour - at) ==> at + 5 <= f && forall x :: x >= at + 5 ==> second(x) == undone(x)
    requires !IsNear(detour - at) ==> FarWritten(undone, second, at, detour) && at + 2 <= f
    ensures SecondPatch(before, second, at, f, detour)
  {
    hide PaddedFar, BehindFar, EntryFar, PaddedBy;
    SamePadding(before, undone);
  }

  /** A jump in front of the function: what is behind it is old code, an address or a displacement. */
  lemma SecondMisses(before: Memory, second: Memory, at: int, f: int, detour: int)
    requires SecondPatch(before, second, at, f, detour) && NoJump(before, f, detour)
    requires f - at in {5, 8, 14} && (f - at == 8 ==> !PaddedBy(before, at, 8) || IsNear(detour - at))
    ensures !Lands(second, f, detour)
  {
    hide LittleEndian, Load, Signed, PaddedBy;
    assert LittleEndian(-14, 4) == [242, 255, 255, 255] && LittleEndian(0, 4) == [0, 0, 0, 0] by { ShortBytes(); }
    if !(IsNear(detour - at) || PaddedBy(before, at, 14) || at + 14 <= f) {
      if PaddedBy(before, at, 8) {
        assert second(at + 2 + 3) == LittleEndian(-14, 4)[3];
      } else if f - at == 5 {
        assert second(at + 2 + 3) == LittleEndian(0, 4)[3];
      } else {
        assert second(at + 6 + 2) == LittleEndian(detour, 8)[2];
      }
    }
  }

  lemma ShortBytes()
    ensures LittleEndian(-14, 4) == [242, 255, 255, 255] && LittleEndian(0, 4) == [0, 0, 0, 0]
  {
  }

  // ---- another target for a site that has a slot

  /** A site that got a slot keeps the address in it. Patched for another far target, undone in between or not, the
      function still leads to the first one. */
  method Retarget(before: Memory, p: PatchData, a: int, b: int, undo: bool) returns (after: Memory, claimed: bool)
    requires Fresh(p) && p.fd != 0 && !p.usePatchedImports && IsAddress(a) && IsAddress(b) && StoreUsable(before, p)
    ensures claimed ==> Lands(after, p.fd, if IsNear(b - p.fd) then b else a)
  {
    hide Lands, PaddedBy, Restored, Zeroed, SiteFrame, Firm, Claimable, NoPairs, FarWritten, Write, Agree, SlotFar;
    hide ThroughSlot, Outside, Holds;
    var f := p.fd;
    var patcher := new Patcher(_ => true, before, []);
    var q := patcher.PatchFunction(p, a);
    ghost var mid := patcher.mem;
    claimed := q.functionOffset != 0;
    if claimed {
      ClaimClear(before, f + q.functionOffset, f, 6);
      NotPaddedMore(before, f);
    }
    if undo { patcher.Unpatch(q); }
    ghost var now := patcher.mem;
    OutsideSelf(mid, q.fd, |q.saved|);
    if claimed { SlotLeft(before, mid, now, p, q.functionOffset, a); }
    var _ := patcher.PatchFunction(q, b);
    after := patcher.mem;
    if claimed && !IsNear(b - f) {
      SlotStays(now, after, q, a, b);
      ArrivesLands(after, f, q.functionOffset, a);
    }
  }

  lemma NotPaddedMore(m: Memory, f: int)
    ensures PaddedBy(m, f, 14) ==> PaddedBy(m, f, 8)
  {
  }

  lemma OutsideSelf(m: Memory, at: int, size: nat)
    ensures Outside(m, m, at, size)
  {
  }

  lemma SlotLeft(before: Memory, mid: Memory, now: Memory, p: PatchData, offset: int, a: int)
    requires p.functionOffset == 0 && ThroughSlot(before, mid, p, offset, a) && Outside(mid, now, p.fd, 6)
    requires offset + 8 <= 0 || 6 <= offset
    requires Claimable(before, p.fd + offset) && !PaddedBy(before, p.fd, 8)
    ensures Holds(now, p.fd + offset, LittleEndian(a, 8)) && !PaddedBy(now, p.fd, 8)
  {
    hide LittleEndian, FarJump;
    var e := RunOf(before, p.fd + offset);
    var x :| p.fd - 8 <= x < p.fd && !IsPadding(before(x));
    assert now(x) == before(x);
  }

  lemma SlotStays(now: Memory, after: Memory, q: PatchData, a: int, b: int)
    requires Holds(now, q.fd + q.functionOffset, LittleEndian(a, 8)) && q.functionOffset != 0
    requires ThroughSlot(now, after, q, q.functionOffset, b) && SlotUsable(q.functionOffset)
    ensures Arrives(after, q.fd, q.functionOffset, a)
  {
    hide LittleEndian, FarJump;
    HoldsKept(now, after, q.fd + q.functionOffset, LittleEndian(a, 8));
  }

  // ---- an entry that looks like room for a slot

  const ENTRY: int := 20

  /** Forty bytes of INT3 from the entry on, which are the store region. */
  function Int3From(f: int): Memory {
    x => if f <= x < f + 40 then INT3 else 0
  }

  /** The slot is taken inside the entry itself, and the jump overwrites the address in it. */
  method EntryOfInt3() returns (after: Memory)
    ensures InReach(FunctionAt(ENTRY).(storeFunc := ENTRY, storeSize := 40)) && !Lands(after, ENTRY, LOW)
  {
    hide Int3From, Lands, FirstRun, PaddedBy, Zeroed, SiteFrame, Claimable, NoPairs, Write, Agree, SlotFar, ThroughSlot;
    var patcher := new Patcher(_ => true, Int3From(ENTRY), []);
    var p := FunctionAt(ENTRY).(storeFunc := ENTRY, storeSize := 40);
    RunAtEntry(p);
    var q := patcher.PatchFarEntry(p, LOW);
    after := patcher.mem;
    assert q.functionOffset == 4;
    Overwritten(after, p);
  }

  lemma RunAtEntry(p: PatchData)
    requires p.storeFunc == ENTRY && p.storeSize == 40
    ensures FirstRun(Int3From(ENTRY), p, ENTRY)
  {
  }

  lemma Overwritten(after: Memory, p: PatchData)
    requires p.fd == ENTRY && p.functionOffset == 0 && ThroughSlot(Int3From(ENTRY), after, p, 4, LOW)
    ensures !Lands(after, ENTRY, LOW)
  {
    hide LittleEndian, Load, Signed;
    BytesOf();
    BackTwo();
    SlotReached(after, ENTRY, -2);
    var v := Load(after, ENTRY + 4, 8);
    assert after(ENTRY + 2 + 2) == LittleEndian(-2, 4)[2];
    LoadAtLeast(after, ENTRY + 4, 8, 0);
    LoadHolds(after, ENTRY + 4, 8);
    assert v == LOW ==> after(ENTRY + 4 + 0) == LittleEndian(LOW, 8)[0];
    assert Hop(after, ENTRY) == Some(v) && Hop(after, v) == None;
  }

  lemma BackTwo()
    ensures LittleEndian(-2, 4) == [254, 255, 255, 255]
  {
  }

  // ---- a table as the program builds it

  /** Two functions 28 bytes apart inside the region they share, and import slots side by side in three entries. */
  function InsideSite(i: int, a: int): PatchData {
    if i == 0 && 0 <= a < 2 then FunctionAt(0x2000 + 28 * a).(storeFunc := 0x1000, storeSize := 0x2000)
    else if 1 <= i <= 3 && a == 0 then FunctionAt(0x5000 + 8 * (i - 1)).(usePatchedImports := true)
    else FunctionAt(0)
  }

  function InsideTable(): (t: seq<Entry>)
    ensures |t| == PATCH_COUNT
    ensures forall i :: 0 <= i < PATCH_COUNT ==>
      && t[i].named && !t[i].hasTerm && t[i].targetAddr == (if i == 0 then LOW else HIGH) && t[i].termAddr == 0
      && |t[i].patches| == PATCH_DATA_COUNT
      && forall a :: 0 <= a < PATCH_DATA_COUNT ==> t[i].patches[a] == InsideSite(i, a)
  {
    seq(PATCH_COUNT, i =>
      Entry(true, false, if i == 0 then LOW else HIGH, 0, seq(PATCH_DATA_COUNT, a => InsideSite(i, a))))
  }

  function InsideMemory(): Memory {
    x => if 0x1100 <= x < 0x1200 then INT3 else 0
  }

  lemma InsideApart(i: int, a: int, j: int, b: int)
    requires i != j || a != b
    ensures Apart(InsideSite(i, a), InsideSite(j, b))
  {
  }

  lemma InsideReady(i: int, a: int)
    ensures Ready(InsideMemory(), InsideSite(i, a))
  {
    var p := InsideSite(i, a);
    assert p.usePatchedImports ==> InsideMemory()(p.fd) != INT3;
  }

  lemma InsideFits()
    ensures FreshTable(InsideTable()) && AllNamed(InsideTable()) && Spaced(InsideTable())
    ensures ReadyTable(InsideMemory(), InsideTable())
  {
    hide InsideTable, Ready, Apart;
    var t := InsideTable();
    forall i | 0 <= i < PATCH_COUNT ensures Usable(t[i]) && ReadyEntry(InsideMemory(), t[i]) {
      forall a | 0 <= a < PATCH_DATA_COUNT ensures Ready(InsideMemory(), t[i].patches[a]) { InsideReady(i, a); }
      forall a, b | 0 <= a < PATCH_DATA_COUNT && 0 <= b < PATCH_DATA_COUNT && a != b
        ensures Apart(t[i].patches[a], t[i].patches[b])
      {
        InsideApart(i, a, i, b);
      }
    }
    forall i, j, a | 0 <= i < PATCH_COUNT && 0 <= j < PATCH_COUNT && i != j && 0 <= a < |t[i].patches|
      ensures ApartFrom(t[i].patches[a], t[j])
    {
      forall b | 0 <= b < |t[j].patches| ensures Apart(t[i].patches[a], t[j].patches[b]) { InsideApart(i, a, j, b); }
    }
  }

  /** Enabled with all requests granted, every function and every import slot of the table leads to its detour. */
  method InsideRegion() returns (enabled: Outcome, after: Memory)
    ensures enabled == Success
    ensures Lands(after, 0x2000, LOW) && Lands(after, 0x201C, LOW)
    ensures Load(after, 0x5000, 8) == Load(after, 0x5008, 8) == Load(after, 0x5010, 8) == HIGH
  {
    hide FreshTable, Spaced, ReadyTable, AllNamed, Lands, Load, InsideMemory, InsideTable;
    InsideFits();
    var patcher := new Patcher(_ => true, InsideMemory(), InsideTable());
    enabled := Enable(patcher, Patched);
    after := patcher.mem;
    assert Delivers(after, InsideTable()[0], 0, Patched) && Delivers(after, InsideTable()[0], 1, Patched);
    assert Delivers(after, InsideTable()[1], 0, Patched) && Delivers(after, InsideTable()[2], 0, Patched);
    assert Delivers(after, InsideTable()[3], 0, Patched);
  }
}
