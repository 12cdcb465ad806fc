/** When the jumps written into patch sites go on standing: no site writes over the jump or the slot of another. */
module Standing {
  import opened Jumps
  import opened PatchTables

  // ---- slots

  /** The aligned eight bytes around x. */
  function BlockOf(x: int): int {
    x / 8 * 8
  }

  /** These aligned eight bytes are what the search makes of some run of eighteen INT3. */
  ghost predicate Claimable(m: Memory, slot: int) {
    exists e :: Int3Run(m, e) && BlockOf(e + 8) == slot
  }

  predicate Pair(m: Memory, x: int) {
    m(x) == INT3 && m(x + 1) == INT3
  }

  /** No two neighbours among the n bytes from f on are both INT3. */
  ghost predicate NoPairs(m: Memory, f: int, n: nat) {
    forall x :: f <= x < f + n - 1 ==> !Pair(m, x)
  }

  /** The run starts before its slot and reaches two bytes past it. */
  lemma RunOf(m: Memory, slot: int) returns (e: int)
    requires Claimable(m, slot)
    ensures slot % 8 == 0 && slot - 8 <= e < slot && Int3Run(m, e)
  {
    e :| Int3Run(m, e) && BlockOf(e + 8) == slot;
  }

  /** So a slot keeps clear of code without INT3 neighbours. */
  lemma ClaimClear(m: Memory, slot: int, f: int, n: nat)
    requires Claimable(m, slot) && NoPairs(m, f, n) && n >= 2
    ensures slot + 8 <= f || f + n <= slot
  {
    var e := RunOf(m, slot);
    if f < slot + 8 && slot < f + n { assert Pair(m, if slot <= f then f else slot - 1); }
  }

  lemma ClaimedInt3(m: Memory, x: int)
    requires Claimable(m, BlockOf(x))
    ensures m(x) == INT3
  {
    var e := RunOf(m, BlockOf(x));
  }

  /** The slots of the region are within 32 bits of a jump at the entry. */
  predicate InReach(p: PatchData) {
    || p.storeFunc == 0
    || (-0x8000_0000 <= p.storeFunc - p.fd - 6 && p.storeFunc + p.storeSize - p.fd - 6 < 0x8000_0000)
  }

  /** The six-byte jump can use a slot at this distance. */
  predicate SlotUsable(offset: int) {
    offset == 0 || (Fits(offset - 6) && (offset + 8 <= 0 || 6 <= offset))
  }

  /** Whatever slot the region yields, the site can use it. */
  ghost predicate StoreUsable(m: Memory, p: PatchData) {
    p.storeFunc == 0 || (InReach(p) && NoPairs(m, p.fd, 6))
  }

  /** The first run of INT3 that the search of the region meets. */
  ghost predicate FirstRun(m: Memory, p: PatchData, e: int) {
    && p.storeFunc <= e < p.storeFunc + p.storeSize - 18 && Int3Run(m, e)
    && forall d :: p.storeFunc <= d < e ==> !Int3Run(m, d)
  }

  /** A far jump without a slot was written, in the layout the padding selects, and nothing else. */
  ghost predicate FarWritten(before: Memory, after: Memory, f: int, detour: int) {
    if PaddedBy(before, f, 14) then PaddedFar(after, f, detour) && Outside(before, after, f - 14, 16)
    else if PaddedBy(before, f, 8) then BehindFar(after, f, detour) && Outside(before, after, f - 8, 14)
    else EntryFar(after, f, detour) && Outside(before, after, f, 14)
  }

  /** The six-byte jump was written; its slot with it, unless the site had one. */
  ghost predicate ThroughSlot(before: Memory, after: Memory, p: PatchData, offset: int, detour: int) {
    && FarJump(after, p.fd, offset - 6)
    && (if p.functionOffset == 0 then Outside(Write(before, p.fd + offset, LittleEndian(detour, 8)), after, p.fd, 6)
        else offset == p.functionOffset && Outside(before, after, p.fd, 6))
  }

  lemma FarArrives(before: Memory, after: Memory, f: int, detour: int)
    requires FarWritten(before, after, f, detour)
    ensures Arrives(after, f, 0, detour)
  {
    hide PaddedFar, BehindFar, EntryFar;
  }

  lemma PaddedLess(m: Memory, f: int, n: nat, k: nat)
    requires PaddedBy(m, f, n) && k <= n
    ensures PaddedBy(m, f, k)
  {
  }

  /** How far the first save moves the address of the site, by distance and padding. */
  ghost function Moved(m: Memory, f: int, detour: int): nat {
    if IsNear(detour - f) then (if PaddedBy(m, f, 5) then 5 else 0)
    else if PaddedBy(m, f, 14) then 14 else if PaddedBy(m, f, 8) then 8 else 0
  }

  // ---- what patching a site may write

  /** Padding in front of the entry, the fourteen bytes from the entry on, and a slot; or the import slot. */
  ghost predicate Touches(m: Memory, p: PatchData, x: int) {
    if p.usePatchedImports then p.fd <= x < p.fd + 8
    else
      || p.fd <= x < p.fd + 14
      || (p.fd - 14 <= x < p.fd && PaddedBy(m, p.fd, p.fd - x))
      || Claimable(m, BlockOf(x))
  }

  ghost predicate SiteFrame(before: Memory, after: Memory, p: PatchData) {
    forall x :: after(x) != before(x) ==> Touches(before, p, x)
  }

  lemma SiteFrameSelf(m: Memory)
    ensures forall p :: SiteFrame(m, m, p)
  {
  }

  lemma FunctionFrame(before: Memory, after: Memory, p: PatchData, at: int, size: nat)
    requires Outside(before, after, at, size) && at <= p.fd && PaddedBy(before, p.fd, p.fd - at)
    requires !p.usePatchedImports && p.fd - 14 <= at && at + size <= p.fd + 14
    ensures SiteFrame(before, after, p)
  {
  }

  lemma ImportFrame(before: Memory, after: Memory, p: PatchData)
    requires Outside(before, after, p.fd, 8) && p.usePatchedImports
    ensures SiteFrame(before, after, p)
  {
  }

  lemma SlotFrame(before: Memory, after: Memory, p: PatchData, slot: int, detour: int, size: nat)
    requires Outside(Write(before, slot, LittleEndian(detour, 8)), after, p.fd, size) && size <= 14
    requires !p.usePatchedImports && Claimable(before, slot)
    ensures SiteFrame(before, after, p)
  {
    hide LittleEndian, PaddedBy;
    var e := RunOf(before, slot);
    forall x | after(x) != before(x) ensures Touches(before, p, x) {
      assert slot <= x < slot + 8 ==> BlockOf(x) == slot;
    }
  }

  // ---- jumps no slot is ever claimed in

  /** A layout in whose bytes no run of INT3 can yield a slot. */
  ghost predicate Firm(m: Memory, f: int, offset: int, target: int) {
    if offset != 0 then SlotFar(m, f, offset, target) && (f + offset) % 8 == 0 && !Pair(m, f + 6)
    else
      || (EntryNear(m, f, target) && !Pair(m, f + 5))
      || PaddedNear(m, f, target)
      || EntryFar(m, f, target)
      || (BehindFar(m, f, target) && exists x :: f - 14 <= x < f - 8 && m(x) != INT3)
      || PaddedFar(m, f, target)
  }

  lemma FirmArrives(m: Memory, f: int, offset: int, target: int)
    requires Firm(m, f, offset, target)
    ensures Arrives(m, f, offset, target)
  {
    hide EntryNear, PaddedNear, EntryFar, BehindFar, PaddedFar, SlotFar;
  }

  /** Around f only slots were claimed. */
  ghost predicate OnlyClaims(before: Memory, after: Memory, f: int) {
    forall x :: f - 14 <= x < f + 14 && after(x) != before(x) ==> Claimable(before, BlockOf(x))
  }

  lemma SolidByte(before: Memory, after: Memory, f: int, x: int)
    requires OnlyClaims(before, after, f) && f - 14 <= x < f + 14 && before(x) != INT3
    ensures after(x) == before(x)
  {
    if after(x) != before(x) { ClaimedInt3(before, x); }
  }

  lemma NoPairKept(before: Memory, after: Memory, f: int, x: int)
    requires OnlyClaims(before, after, f) && f - 14 <= x < f + 13 && !Pair(before, x)
    ensures !Pair(after, x)
  {
    if before(x) != INT3 { SolidByte(before, after, f, x); } else { SolidByte(before, after, f, x + 1); }
  }

  /** What a jump of at most six bytes needs: the entry is no INT3, and the two bytes behind it are not both. */
  lemma ShortKept(before: Memory, after: Memory, f: int, n: nat, x: int)
    requires OnlyClaims(before, after, f) && before(f) != INT3 && n <= 6 && !Pair(before, f + n) && f <= x < f + n
    ensures after(x) == before(x)
  {
    if after(x) != before(x) {
      var e := RunOf(before, BlockOf(x));
    }
  }

  lemma EntryNearKept(before: Memory, after: Memory, f: int, target: int)
    requires EntryNear(before, f, target) && !Pair(before, f + 5) && OnlyClaims(before, after, f)
    ensures EntryNear(after, f, target) && !Pair(after, f + 5)
  {
    hide OnlyClaims, LittleEndian, Holds;
    forall x | f <= x < f + 5 ensures after(x) == before(x) { ShortKept(before, after, f, 5, x); }
    HoldsKept(before, after, f + 1, LittleEndian(target - f - 5, 4));
    NoPairKept(before, after, f, f + 5);
  }

  lemma FarJumpKept(before: Memory, after: Memory, at: int, dist: int)
    requires FarJump(before, at, dist) && forall x :: at <= x < at + 6 ==> after(x) == before(x)
    ensures FarJump(after, at, dist)
  {
    HoldsKept(before, after, at + 2, LittleEndian(dist, 4));
  }

  lemma SlotFarKept(before: Memory, after: Memory, f: int, offset: int, target: int)
    requires SlotFar(before, f, offset, target) && !Pair(before, f + 6) && OnlyClaims(before, after, f)
    requires forall x :: f + offset <= x < f + offset + 8 ==> after(x) == before(x)
    ensures SlotFar(after, f, offset, target) && !Pair(after, f + 6)
  {
    hide OnlyClaims, LittleEndian, Holds;
    forall x | f <= x < f + 6 ensures after(x) == before(x) { ShortKept(before, after, f, 6, x); }
    FarJumpKept(before, after, f, offset - 6);
    HoldsKept(before, after, f + offset, LittleEndian(target, 8));
    NoPairKept(before, after, f, f + 6);
  }

  /** Any eight bytes that meet [lo, hi] contain one of the ends when hi is at most eight behind lo. */
  lemma EndsKept(before: Memory, after: Memory, f: int, lo: int, hi: int, x: int)
    requires OnlyClaims(before, after, f) && f - 14 <= lo <= x <= hi < f + 14 && hi <= lo + 8
    requires before(lo) != INT3 && before(hi) != INT3
    ensures after(x) == before(x)
  {
    if after(x) != before(x) {
      var e := RunOf(before, BlockOf(x));
    }
  }

  lemma PaddedNearKept(before: Memory, after: Memory, f: int, target: int)
    requires PaddedNear(before, f, target) && OnlyClaims(before, after, f)
    ensures PaddedNear(after, f, target)
  {
    hide OnlyClaims;
    assert LittleEndian(-7, 1) == [249];
    assert before(f + 1) == LittleEndian(-7, 1)[0];
    forall x | f - 5 <= x < f + 2 ensures after(x) == before(x) { EndsKept(before, after, f, f - 5, f + 1, x); }
    HoldsKept(before, after, f - 4, LittleEndian(target - f, 4));
    HoldsKept(before, after, f + 1, LittleEndian(-7, 1));
  }

  /** The jump and the address behind it, whose highest byte is zero. */
  lemma FarPairKept(before: Memory, after: Memory, f: int, at: int, target: int)
    requires FarJump(before, at, 0) && Holds(before, at + 6, LittleEndian(target, 8)) && IsTarget(target)
    requires f - 14 <= at && at + 14 <= f + 14 && OnlyClaims(before, after, f)
    ensures FarJump(after, at, 0) && Holds(after, at + 6, LittleEndian(target, 8))
  {
    hide OnlyClaims;
    TopByte(before, at + 6, target);
    assert LittleEndian(0, 4) == [0, 0, 0, 0];
    assert before(at + 2 + 3) == LittleEndian(0, 4)[3];
    forall x | at <= x < at + 6 ensures after(x) == before(x) { EndsKept(before, after, f, at, at + 5, x); }
    forall x | at + 5 <= x < at + 14 ensures after(x) == before(x) { EndsKept(before, after, f, at + 5, at + 13, x); }
    FarJumpKept(before, after, at, 0);
    HoldsKept(before, after, at + 6, LittleEndian(target, 8));
  }

  lemma PaddedFarKept(before: Memory, after: Memory, f: int, target: int)
    requires PaddedFar(before, f, target) && IsTarget(target) && OnlyClaims(before, after, f)
    ensures PaddedFar(after, f, target)
  {
    hide OnlyClaims, FarJump;
    assert LittleEndian(-16, 1) == [240];
    assert before(f + 1) == LittleEndian(-16, 1)[0];
    forall x | f <= x < f + 2 ensures after(x) == before(x) { SolidByte(before, after, f, x); }
    HoldsKept(before, after, f + 1, LittleEndian(-16, 1));
    FarPairKept(before, after, f, f - 14, target);
  }

  /** A run that meets the jump or its address would have to fit between two bytes less than eighteen apart. */
  lemma BehindFarByte(before: Memory, after: Memory, f: int, target: int, stop: int, x: int)
    requires BehindFar(before, f, target) && IsTarget(target) && OnlyClaims(before, after, f)
    requires f - 14 <= stop < f - 8 && before(stop) != INT3 && f - 8 <= x < f + 6
    ensures after(x) == before(x)
  {
    TopByte(before, f - 8, target);
    assert LittleEndian(-14, 4) == [242, 255, 255, 255];
    assert before(f + 2 + 3) == LittleEndian(-14, 4)[3];
    if after(x) != before(x) {
      var e := RunOf(before, BlockOf(x));
    }
  }

  lemma BehindFarKept(before: Memory, after: Memory, f: int, target: int, stop: int)
    requires BehindFar(before, f, target) && IsTarget(target) && OnlyClaims(before, after, f)
    requires f - 14 <= stop < f - 8 && before(stop) != INT3
    ensures BehindFar(after, f, target) && after(stop) != INT3
  {
    hide OnlyClaims, LittleEndian, Holds;
    forall x | f - 8 <= x < f + 6 ensures after(x) == before(x) { BehindFarByte(before, after, f, target, stop, x); }
    FarJumpKept(before, after, f, -14);
    HoldsKept(before, after, f - 8, LittleEndian(target, 8));
    SolidByte(before, after, f, stop);
  }

  /** A firm jump stays firm when around it only slots are claimed and its own slot is kept. */
  lemma FirmKept(before: Memory, after: Memory, f: int, offset: int, target: int)
    requires Firm(before, f, offset, target) && IsTarget(target) && OnlyClaims(before, after, f)
    requires offset != 0 ==> forall x :: f + offset <= x < f + offset + 8 ==> after(x) == before(x)
    ensures Firm(after, f, offset, target)
  {
    hide EntryNear, PaddedNear, EntryFar, BehindFar, PaddedFar, SlotFar, OnlyClaims, Pair;
    if offset != 0 {
      SlotFarKept(before, after, f, offset, target);
    } else if EntryNear(before, f, target) && !Pair(before, f + 5) {
      EntryNearKept(before, after, f, target);
    } else if PaddedNear(before, f, target) {
      PaddedNearKept(before, after, f, target);
    } else if EntryFar(before, f, target) {
      EntryFarKept(before, after, f, target);
    } else if PaddedFar(before, f, target) {
      PaddedFarKept(before, after, f, target);
    } else {
      var stop :| f - 14 <= stop < f - 8 && before(stop) != INT3;
      BehindFarKept(before, after, f, target, stop);
    }
  }

  lemma EntryFarKept(before: Memory, after: Memory, f: int, target: int)
    requires EntryFar(before, f, target) && IsTarget(target) && OnlyClaims(before, after, f)
    ensures EntryFar(after, f, target)
  {
    hide OnlyClaims;
    FarPairKept(before, after, f, f, target);
  }

  /** Patching a function with code free of INT3 neighbours makes a firm jump, layout by layout. */
  lemma PairOutside(before: Memory, after: Memory, f: int, n: nat)
    requires Outside(before, after, f, n) && NoPairs(before, f, 14) && n < 13
    ensures !Pair(after, f + n)
  {
    assert !Pair(before, f + n);
  }

  lemma PaddingStops(before: Memory, after: Memory, f: int)
    requires PaddedBy(before, f, 8) && !PaddedBy(before, f, 14) && Outside(before, after, f - 8, 14)
    ensures exists x :: f - 14 <= x < f - 8 && after(x) != INT3
  {
  }

  lemma SlotFirm(before: Memory, after: Memory, slot: int, f: int, detour: int, size: nat)
    requires Claimable(before, slot) && NoPairs(before, f, 14) && size <= 6
    requires Outside(Write(before, slot, LittleEndian(detour, 8)), after, f, size)
    ensures slot % 8 == 0 && !Pair(after, f + 6)
  {
    hide LittleEndian;
    var e := RunOf(before, slot);
    ClaimClear(before, slot, f, 14);
    assert !Pair(before, f + 6);
  }

  lemma ClaimFree(m: Memory, was: set<int>, slot: int)
    requires Claimable(m, slot)
    ensures SlotsFree(m, was, was + SlotBytes(slot))
  {
    hide SlotBytes;
    var e := RunOf(m, slot);
    SlotsFreeMore(m, was, slot);
  }

  // ---- sites

  /** How far before its address and behind it a site may write, slots aside. */
  function Front(p: PatchData): nat { if p.usePatchedImports then 0 else 14 }

  function Rear(p: PatchData): nat { if p.usePatchedImports then 8 else 14 }

  /** Functions lie 28 bytes apart, import slots eight, and a function keeps its margins from an import slot. */
  predicate Apart(p: PatchData, q: PatchData) {
    p.fd == 0 || q.fd == 0 || p.fd + Rear(p) + Front(q) <= q.fd || q.fd + Rear(q) + Front(p) <= p.fd
  }

  /** A site before it is patched: code without INT3 neighbours, or an aligned import slot that is not all INT3. */
  ghost predicate Ready(m: Memory, p: PatchData) {
    p.fd == 0 ||
    (if p.usePatchedImports then p.fd % 8 == 0 && !AllInt3(m, p.fd) else NoPairs(m, p.fd, 14))
  }

  /** The slot of p, if it has one, keeps out of what patching q overwrites. */
  predicate Clears(p: PatchData, offset: int, q: PatchData) {
    p.fd == 0 || q.fd == 0 || offset == 0 || p.fd + offset + 8 <= q.fd || q.fd + Rear(q) <= p.fd + offset
  }

  /** The site delivers control, or the import slot the address, and will go on doing so. */
  ghost predicate Stands(m: Memory, p: PatchData, offset: int, target: int) {
    p.fd == 0 || target == 0 ||
    (if p.usePatchedImports then p.fd % 8 == 0 && Holds(m, p.fd, LittleEndian(target, 8))
     else Firm(m, p.fd, offset, target))
  }

  /** A slot claimed while q was not patched yet keeps out of q. */
  lemma ClaimClears(m: Memory, p: PatchData, offset: int, q: PatchData)
    requires offset != 0 && p.fd != 0 ==> Claimable(m, p.fd + offset)
    requires Ready(m, q)
    ensures Clears(p, offset, q)
  {
    if p.fd != 0 && q.fd != 0 && offset != 0 {
      if q.usePatchedImports {
        var e := RunOf(m, p.fd + offset);
      } else {
        ClaimClear(m, p.fd + offset, q.fd, 14);
      }
    }
  }

  /** Near a site apart from q, patching q only claims slots. */
  lemma ApartClaims(before: Memory, after: Memory, p: PatchData, q: PatchData)
    requires SiteFrame(before, after, q) && p.fd != 0 && q.fd != 0 && Apart(p, q)
    ensures forall x :: p.fd - Front(p) <= x < p.fd + Rear(p) && after(x) != before(x) ==> Claimable(before, BlockOf(x))
  {
    hide Claimable, PaddedBy;
  }

  /** A site that was not patched yet stays as it was in this respect. */
  lemma ReadyKept(before: Memory, after: Memory, p: PatchData, q: PatchData)
    requires SiteFrame(before, after, q) && q.fd != 0 && Apart(p, q) && Ready(before, p)
    ensures Ready(after, p)
  {
    hide SiteFrame, Claimable, Apart, Pair;
    if p.fd != 0 {
      ApartClaims(before, after, p, q);
      if p.usePatchedImports {
        var y :| p.fd <= y < p.fd + 8 && before(y) != INT3;
        if after(y) != before(y) { ClaimedInt3(before, y); }
      } else {
        forall x | p.fd <= x < p.fd + 13 ensures !Pair(after, x) { NoPairKept(before, after, p.fd, x); }
      }
    }
  }

  /** Nothing writes to a slot: its highest byte is no padding, and it is not all INT3. */
  lemma SlotKept(before: Memory, after: Memory, p: PatchData, offset: int, target: int, q: PatchData, x: int)
    requires SiteFrame(before, after, q) && p.fd != 0 && q.fd != 0 && offset != 0 && Clears(p, offset, q)
    requires IsTarget(target) && Holds(before, p.fd + offset, LittleEndian(target, 8)) && (p.fd + offset) % 8 == 0
    requires p.fd + offset <= x < p.fd + offset + 8
    ensures after(x) == before(x)
  {
    hide LittleEndian;
    TopByte(before, p.fd + offset, target);
    if after(x) != before(x) && Claimable(before, BlockOf(x)) { ClaimedTop(before, p.fd + offset, x); }
  }

  lemma ClaimedTop(m: Memory, slot: int, x: int)
    requires slot % 8 == 0 && slot <= x < slot + 8 && Claimable(m, BlockOf(x))
    ensures m(slot + 7) == INT3
  {
    var e := RunOf(m, BlockOf(x));
    assert BlockOf(x) == slot;
  }

  lemma ImportKept(before: Memory, after: Memory, p: PatchData, target: int, q: PatchData, x: int)
    requires SiteFrame(before, after, q) && p.fd != 0 && q.fd != 0 && Apart(p, q) && p.usePatchedImports
    requires IsTarget(target) && Holds(before, p.fd, LittleEndian(target, 8)) && p.fd % 8 == 0
    requires p.fd <= x < p.fd + 8
    ensures after(x) == before(x)
  {
    hide LittleEndian, SiteFrame;
    TopByte(before, p.fd, target);
    ApartClaims(before, after, p, q);
    if after(x) != before(x) { ClaimedTop(before, p.fd, x); }
  }

  /** Patching a site leaves every site apart from it standing, wherever the store regions lie. */
  lemma StandsKept(before: Memory, after: Memory, p: PatchData, offset: int, target: int, q: PatchData)
    requires SiteFrame(before, after, q) && q.fd != 0 && Apart(p, q) && Clears(p, offset, q) && IsTarget(target)
    requires Stands(before, p, offset, target)
    ensures Stands(after, p, offset, target)
  {
    hide LittleEndian, Firm, Holds, SiteFrame, Apart, Claimable, Clears;
    if p.fd != 0 && target != 0 {
      if p.usePatchedImports {
        forall x | p.fd <= x < p.fd + 8 ensures after(x) == before(x) { ImportKept(before, after, p, target, q, x); }
        HoldsKept(before, after, p.fd, LittleEndian(target, 8));
      } else {
        ApartClaims(before, after, p, q);
        if offset != 0 {
          SlotStored(before, p.fd, offset, target);
          forall x | p.fd + offset <= x < p.fd + offset + 8 ensures after(x) == before(x) {
            SlotKept(before, after, p, offset, target, q, x);
          }
        }
        FirmKept(before, after, p.fd, offset, target);
      }
    }
  }

  lemma SlotStored(m: Memory, f: int, offset: int, target: int)
    requires Firm(m, f, offset, target) && offset != 0
    ensures Holds(m, f + offset, LittleEndian(target, 8)) && (f + offset) % 8 == 0
  {
  }

  // ---- the sites of an entry

  ghost predicate ApartFrom(p: PatchData, e: Entry) {
    forall a :: 0 <= a < |e.patches| ==> Apart(p, e.patches[a])
  }

  /** Regions in reach, addresses below 2^56, and sites apart from each other. */
  ghost predicate Usable(e: Entry) {
    && IsTarget(e.targetAddr) && IsTarget(e.termAddr)
    && (forall a :: 0 <= a < |e.patches| ==> InReach(e.patches[a]))
    && (forall a, b :: 0 <= a < |e.patches| && 0 <= b < |e.patches| && a != b ==> Apart(e.patches[a], e.patches[b]))
  }

  ghost predicate ReadyEntry(m: Memory, e: Entry) {
    forall a :: 0 <= a < |e.patches| ==> Ready(m, e.patches[a])
  }

  /** The slots of the first k sites, at the offsets in f, keep out of q. */
  ghost predicate ClaimsClear(e: Entry, f: Entry, k: nat, q: PatchData)
    requires k <= |e.patches| == |f.patches|
  {
    forall a :: 0 <= a < k ==> Clears(e.patches[a], f.patches[a].functionOffset, q)
  }

  ghost predicate ClearsEntry(p: PatchData, offset: int, e: Entry) {
    forall a :: 0 <= a < |e.patches| ==> Clears(p, offset, e.patches[a])
  }

  /** After the first k sites of the entry these stand, the others are ready, and no slot is in their way. */
  ghost predicate SitesStand(m: Memory, e: Entry, f: Entry, target: int, k: nat) {
    && k <= |e.patches| == |f.patches|
    && (forall a :: 0 <= a < k ==> Stands(m, e.patches[a], f.patches[a].functionOffset, target))
    && (forall b :: k <= b < |e.patches| ==> Ready(m, e.patches[b]) && ClaimsClear(e, f, k, e.patches[b]))
  }

  /** Patching the first k sites respects all sites apart from the entry: those not patched stay ready and no slot
      is in their way, and those that stood stand. */
  ghost predicate Respects(before: Memory, after: Memory, e: Entry, f: Entry, k: nat) {
    && k <= |e.patches| == |f.patches|
    && (forall q :: ApartFrom(q, e) && Ready(before, q) ==> Ready(after, q) && ClaimsClear(e, f, k, q))
    && forall p, offset, target ::
         IsTarget(target) && ApartFrom(p, e) && ClearsEntry(p, offset, e) && Stands(before, p, offset, target) ==>
           Stands(after, p, offset, target)
  }

  /** Patching site k: it stays within its frame and takes a slot only where one can be claimed. */
  ghost predicate SitePatched(mid: Memory, after: Memory, p: PatchData, offset: int) {
    if p.fd == 0 then after == mid && offset == 0
    else SiteFrame(mid, after, p) && (offset != 0 ==> Claimable(mid, p.fd + offset))
  }

  lemma SitesStandNone(m: Memory, e: Entry, f: Entry, target: int)
    requires |e.patches| == |f.patches| && ReadyEntry(m, e)
    ensures SitesStand(m, e, f, target, 0)
  {
  }

  lemma NextSiteReady(m: Memory, e: Entry, f: Entry, target: int, k: nat)
    requires SitesStand(m, e, f, target, k) && k < |e.patches|
    ensures Ready(m, e.patches[k])
  {
  }

  /** Skipping an entry. */
  lemma NothingPatched(m: Memory, e: Entry)
    requires FreshEntry(e) && e.patches[0].fd == 0
    ensures Respects(m, m, e, e, |e.patches|)
  {
  }

  lemma RespectsNone(m: Memory, e: Entry, f: Entry)
    requires |e.patches| == |f.patches|
    ensures Respects(m, m, e, f, 0)
  {
  }

  lemma SitesStandMore(mid: Memory, after: Memory, e: Entry, f: Entry, g: Entry, target: int, k: nat)
    requires Usable(e) && IsTarget(target) && SitesStand(mid, e, f, target, k) && k < |e.patches| == |g.patches|
    requires forall a :: 0 <= a < |e.patches| && a != k ==> g.patches[a] == f.patches[a]
    requires SitePatched(mid, after, e.patches[k], g.patches[k].functionOffset)
    requires Stands(after, e.patches[k], g.patches[k].functionOffset, target)
    ensures SitesStand(after, e, g, target, k + 1)
  {
    hide Stands, SiteFrame, Apart, Ready, Clears, Claimable, InReach;
    var p := e.patches[k];
    forall a | 0 <= a < k ensures Stands(after, e.patches[a], g.patches[a].functionOffset, target) {
      assert Ready(mid, e.patches[k]) && ClaimsClear(e, f, k, e.patches[k]);
      if p.fd != 0 { StandsKept(mid, after, e.patches[a], f.patches[a].functionOffset, target, p); }
    }
    forall b | k + 1 <= b < |e.patches| ensures Ready(after, e.patches[b]) && ClaimsClear(e, g, k + 1, e.patches[b]) {
      assert Ready(mid, e.patches[b]) && ClaimsClear(e, f, k, e.patches[b]);
      if p.fd != 0 { ReadyKept(mid, after, e.patches[b], p); }
      ClaimClears(mid, p, g.patches[k].functionOffset, e.patches[b]);
    }
  }

  lemma RespectsMore(before: Memory, mid: Memory, after: Memory, e: Entry, f: Entry, g: Entry, k: nat)
    requires Respects(before, mid, e, f, k) && k < |e.patches| == |g.patches|
    requires forall a :: 0 <= a < |e.patches| && a != k ==> g.patches[a] == f.patches[a]
    requires SitePatched(mid, after, e.patches[k], g.patches[k].functionOffset)
    ensures Respects(before, after, e, g, k + 1)
  {
    hide Stands, SiteFrame, Apart, Ready, Clears, Claimable;
    var p := e.patches[k];
    forall q | ApartFrom(q, e) && Ready(before, q) ensures Ready(after, q) && ClaimsClear(e, g, k + 1, q) {
      assert Ready(mid, q) && ClaimsClear(e, f, k, q);
      if p.fd != 0 { ReadyKept(mid, after, q, p); }
      ClaimClears(mid, p, g.patches[k].functionOffset, q);
    }
    forall q, offset, target |
      IsTarget(target) && ApartFrom(q, e) && ClearsEntry(q, offset, e) && Stands(before, q, offset, target)
      ensures Stands(after, q, offset, target)
    {
      if p.fd != 0 { StandsKept(mid, after, q, offset, target, p); }
    }
  }

  /** The first k sites are patched. */
  ghost predicate EntryProgress(before: Memory, m: Memory, e: Entry, f: Entry, target: int, k: nat) {
    Respects(before, m, e, f, k) && (Usable(e) && ReadyEntry(before, e) ==> SitesStand(m, e, f, target, k))
  }

  lemma EntryProgressNone(m: Memory, e: Entry, f: Entry, target: int)
    requires |e.patches| == |f.patches|
    ensures EntryProgress(m, m, e, f, target, 0)
  {
    hide Respects, SitesStand, Usable;
    RespectsNone(m, e, f);
    if ReadyEntry(m, e) { SitesStandNone(m, e, f, target); }
  }

  lemma EntryProgressMore(before: Memory, mid: Memory, after: Memory, e: Entry, f: Entry, g: Entry, target: int, k: nat)
    requires EntryProgress(before, mid, e, f, target, k) && k < |e.patches| == |g.patches|
    requires Usable(e) ==> IsTarget(target)
    requires forall a :: 0 <= a < |e.patches| && a != k ==> g.patches[a] == f.patches[a]
    requires if e.patches[k].fd == 0 then after == mid && g.patches[k].functionOffset == 0
      else SitePatched(mid, after, e.patches[k], g.patches[k].functionOffset)
    requires e.patches[k].fd != 0 && InReach(e.patches[k]) && Ready(mid, e.patches[k]) ==>
      Stands(after, e.patches[k], g.patches[k].functionOffset, target)
    ensures EntryProgress(before, after, e, g, target, k + 1)
  {
    hide Respects, SitesStand, Usable, ReadyEntry, Ready, InReach, SiteFrame, Claimable, Firm;
    RespectsMore(before, mid, after, e, f, g, k);
    if Usable(e) && ReadyEntry(before, e) {
      UsableSite(e, k);
      NextSiteReady(mid, e, f, target, k);
      SitesStandMore(mid, after, e, f, g, target, k);
    }
  }

  lemma UsableSite(e: Entry, a: nat)
    requires Usable(e) && a < |e.patches|
    ensures InReach(e.patches[a]) && IsTarget(e.targetAddr) && IsTarget(e.termAddr)
  {
  }

  // ---- the entries of the table

  ghost predicate Spaced(table: seq<Entry>) {
    && |table| >= PATCH_COUNT && (forall i :: 0 <= i < PATCH_COUNT ==> Usable(table[i]))
    && forall i, j, a :: 0 <= i < PATCH_COUNT && 0 <= j < PATCH_COUNT && i != j && 0 <= a < |table[i].patches| ==>
      ApartFrom(table[i].patches[a], table[j])
  }

  ghost predicate ReadyTable(m: Memory, t: seq<Entry>) {
    |t| >= PATCH_COUNT && forall i :: 0 <= i < PATCH_COUNT ==> ReadyEntry(m, t[i])
  }

  /** An entry whose first site is null is skipped. */
  ghost predicate EntryStands(m: Memory, e: Entry, f: Entry, mode: Mode) {
    && |e.patches| == |f.patches| > 0
    && (e.patches[0].fd != 0 ==> forall a :: 0 <= a < |e.patches| ==>
          Stands(m, e.patches[a], f.patches[a].functionOffset, TargetOf(e, mode)))
  }

  /** The slots of entry e, at the offsets in f, keep out of the sites of another entry. */
  ghost predicate SlotsClear(e: Entry, f: Entry, other: Entry) {
    && |e.patches| == |f.patches|
    && forall b :: 0 <= b < |other.patches| ==> ClaimsClear(e, f, |e.patches|, other.patches[b])
  }

  /** After the first k entries these stand, the others are ready, and no slot is in their way. */
  ghost predicate TableStands(m: Memory, t: seq<Entry>, u: seq<Entry>, mode: Mode, k: nat) {
    && k <= PATCH_COUNT <= |t| == |u|
    && (forall i :: 0 <= i < k ==> EntryStands(m, t[i], u[i], mode))
    && (forall j :: k <= j < PATCH_COUNT ==> ReadyEntry(m, t[j]))
    && (forall i, j :: 0 <= i < k <= j < PATCH_COUNT ==> SlotsClear(t[i], u[i], t[j]))
  }

  lemma NoEntries(m: Memory, t: seq<Entry>, u: seq<Entry>, mode: Mode)
    requires |t| == |u| && ReadyTable(m, t)
    ensures TableStands(m, t, u, mode, 0)
  {
  }

  lemma NextReady(m: Memory, t: seq<Entry>, u: seq<Entry>, mode: Mode, k: nat)
    requires TableStands(m, t, u, mode, k) && k < PATCH_COUNT
    ensures ReadyEntry(m, t[k])
  {
  }

  lemma SpacedUsable(t: seq<Entry>, i: nat)
    requires Spaced(t) && i < PATCH_COUNT
    ensures Usable(t[i])
  {
  }

  lemma SpacedApart(t: seq<Entry>, i: nat, j: nat, a: nat)
    requires Spaced(t) && i < PATCH_COUNT && j < PATCH_COUNT && i != j && a < |t[i].patches|
    ensures ApartFrom(t[i].patches[a], t[j])
  {
  }

  /** Entries that stood still stand after an entry apart from them was patched. */
  lemma EntryStandsKept(mid: Memory, after: Memory, e: Entry, f: Entry, mode: Mode, other: Entry, g: Entry)
    requires EntryStands(mid, e, f, mode) && Respects(mid, after, other, g, |other.patches|) && Usable(e)
    requires SlotsClear(e, f, other) && forall a :: 0 <= a < |e.patches| ==> ApartFrom(e.patches[a], other)
    ensures EntryStands(after, e, f, mode)
  {
    hide Stands, ApartFrom, Clears, Ready;
    if e.patches[0].fd != 0 {
      forall a | 0 <= a < |e.patches|
        ensures Stands(after, e.patches[a], f.patches[a].functionOffset, TargetOf(e, mode))
      {
        var offset := f.patches[a].functionOffset;
        forall b | 0 <= b < |other.patches| ensures Clears(e.patches[a], offset, other.patches[b]) {
          assert ClaimsClear(e, f, |e.patches|, other.patches[b]);
        }
        assert ClearsEntry(e.patches[a], offset, other) && ApartFrom(e.patches[a], other);
      }
    }
  }

  lemma EntryReadyKept(mid: Memory, after: Memory, e: Entry, other: Entry, g: Entry)
    requires ReadyEntry(mid, e) && Respects(mid, after, other, g, |other.patches|)
    requires forall a :: 0 <= a < |e.patches| ==> ApartFrom(e.patches[a], other)
    ensures ReadyEntry(after, e) && SlotsClear(other, g, e)
  {
    hide Stands, ApartFrom, Clears, Ready;
    forall a | 0 <= a < |e.patches|
      ensures Ready(after, e.patches[a]) && ClaimsClear(other, g, |other.patches|, e.patches[a])
    {
      assert ApartFrom(e.patches[a], other) && Ready(mid, e.patches[a]);
    }
  }

  lemma TableStandsMore(mid: Memory, after: Memory, t: seq<Entry>, u: seq<Entry>, v: seq<Entry>, mode: Mode, k: nat)
    requires Spaced(t) && TableStands(mid, t, u, mode, k) && k < PATCH_COUNT && |v| == |t|
    requires forall i :: 0 <= i < k ==> v[i] == u[i]
    requires |v[k].patches| == |t[k].patches| && Respects(mid, after, t[k], v[k], |t[k].patches|)
    requires EntryStands(after, t[k], v[k], mode)
    ensures TableStands(after, t, v, mode, k + 1)
  {
    hide EntryStands, Respects, ApartFrom, Usable, ReadyEntry, SlotsClear, Spaced;
    forall i | 0 <= i < k ensures EntryStands(after, t[i], v[i], mode) {
      SpacedUsable(t, i);
      forall a | 0 <= a < |t[i].patches| ensures ApartFrom(t[i].patches[a], t[k]) { SpacedApart(t, i, k, a); }
      EntryStandsKept(mid, after, t[i], u[i], mode, t[k], v[k]);
    }
    forall j | k + 1 <= j < PATCH_COUNT ensures ReadyEntry(after, t[j]) && SlotsClear(t[k], v[k], t[j]) {
      forall a | 0 <= a < |t[j].patches| ensures ApartFrom(t[j].patches[a], t[k]) { SpacedApart(t, j, k, a); }
      EntryReadyKept(mid, after, t[j], t[k], v[k]);
    }
  }

  /** What the site is for: entering the function leads to the detour, the import slot holds its address. */
  ghost predicate Delivers(m: Memory, e: Entry, a: nat, mode: Mode) {
    a < |e.patches| && e.patches[0].fd != 0 && e.patches[a].fd != 0 && TargetOf(e, mode) != 0 ==>
      if e.patches[a].usePatchedImports then Load(m, e.patches[a].fd, 8) == TargetOf(e, mode)
      else Lands(m, e.patches[a].fd, TargetOf(e, mode))
  }

  lemma StandingDelivers(m: Memory, t: seq<Entry>, u: seq<Entry>, mode: Mode, i: nat, a: nat)
    requires Spaced(t) && TableStands(m, t, u, mode, PATCH_COUNT) && i < PATCH_COUNT && a < |t[i].patches|
    ensures Delivers(m, t[i], a, mode)
  {
    hide Firm, Arrives, Lands, Load, LittleEndian, Holds, InReach, Apart;
    var p, target := t[i].patches[a], TargetOf(t[i], mode);
    SpacedUsable(t, i);
    if t[i].patches[0].fd != 0 && p.fd != 0 && target != 0 {
      assert EntryStands(m, t[i], u[i], mode);
      assert Stands(m, p, u[i].patches[a].functionOffset, target);
      if p.usePatchedImports {
        AddressStored(m, p.fd, target);
      } else {
        FirmArrives(m, p.fd, u[i].patches[a].functionOffset, target);
        ArrivesLands(m, p.fd, u[i].patches[a].functionOffset, target);
      }
    }
  }
}
