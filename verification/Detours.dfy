/** Patching a table of functions: save the bytes, overwrite them with a jump, and when a step is
    refused undo everything in reverse. */
module Detours {
  import opened Jumps
  import opened PatchTables
  import opened Standing
  import opened PatchRuns

  datatype Outcome = Success | Failed | Partial

  // ---- the patcher

  class Patcher {
    /** The answer of the n-th request to change page protection. */
    const grants: nat -> bool
    var calls: nat
    var mem: Memory
    var lastMode: Mode
    var table: seq<Entry>
    /** Addresses inside the address-store slots written so far. */
    ghost var slots: set<int>

    constructor (grants: nat -> bool, mem: Memory, table: seq<Entry>)
      ensures this.grants == grants && calls == 0 && this.mem == mem && this.table == table
      ensures lastMode == Unpatched && slots == {}
    {
      this.grants, this.mem, this.table := grants, mem, table;
      calls, lastMode, slots := 0, Unpatched, {};
    }

    ghost predicate AlwaysGranted() {
      forall n: nat :: grants(n)
    }

    method ChangeProtect() returns (ok: bool)
      modifies this`calls
      ensures calls == old(calls) + 1 && ok == grants(old(calls))
    {
      ok := grants(calls);
      calls := calls + 1;
    }

    /** Saves once, and at most sixteen bytes: what memory holds where they will be put back. */
    method SaveBytes(p: PatchData, addr: int, jmpSize: nat) returns (q: PatchData)
      ensures q == p.(fd := q.fd, saved := q.saved)
      ensures p.saved != [] ==> q == p
      ensures p.saved == [] ==> |q.saved| == if p.fd == 0 then 0 else if jmpSize > 16 then 16 else jmpSize
      ensures p.saved == [] && p.fd != 0 && jmpSize > 0 ==> q.fd == if addr != 0 then addr else p.fd
      ensures q.saved != p.saved ==> q.saved == Read(mem, q.fd, |q.saved|)
    {
      q := p;
      if p.fd == 0 || jmpSize == 0 || p.saved != [] { return; }
      var size := jmpSize;
      if size > 16 { size := 16; }
      if addr != 0 { q := q.(fd := addr); }
      q := q.(saved := Read(mem, q.fd, size));
    }

    method CountPadding(f: int, max: nat) returns (n: nat)
      ensures n <= max && PaddedBy(mem, f, n)
      ensures forall k: nat :: k <= max ==> (PaddedBy(mem, f, k) <==> k <= n)
      // INT3 and NOP, by their opcodes
      ensures (forall x :: f - n <= x < f ==> mem(x) == 0xCC || mem(x) == 0x90)
      ensures n < max ==> mem(f - 1 - n) != 0xCC && mem(f - 1 - n) != 0x90
    {
      n := 0;
      while n < max
        invariant n <= max && PaddedBy(mem, f, n)
      {
        if mem(f - 1 - n) != INT3 && mem(f - 1 - n) != NOP {
          assert !IsPadding(mem(f - 1 - n));
          return;
        }
        n := n + 1;
      }
    }

    method IsAllInt3UpTo(store: int, max: nat) returns (all: bool)
      ensures all <==> forall x :: store <= x < store + max ==> mem(x) == 0xCC
    {
      var n := 0;
      while n < max
        invariant 0 <= n <= max && forall x :: store <= x < store + n ==> mem(x) == INT3
      {
        if mem(store + n) != INT3 { return false; }
        n := n + 1;
      }
      return true;
    }

    method InstallDetourInAddressStore(slot: int, detour: int) returns (ok: bool)
      modifies this`mem, this`slots, this`calls
      ensures ok == grants(old(calls)) && calls > old(calls)
      ensures !ok ==> mem == old(mem) && slots == old(slots)
      ensures ok ==> mem == Write(old(mem), slot, LittleEndian(detour, 8))
      ensures ok ==> slots == old(slots) + SlotBytes(slot)
    {
      ok := ChangeProtect();
      if !ok { return; }
      mem := Write(mem, slot, LittleEndian(detour, 8));
      slots := slots + SlotBytes(slot);
      var _ := ChangeProtect();
    }

    /** Claims an aligned slot inside the first run of eighteen INT3 bytes it may write to. */
    method GetAndSetAddressStore(store: int, size: int, detour: int) returns (slot: int, ghost run: int)
      requires store >= 0
      modifies this`mem, this`slots, this`calls
      ensures calls >= old(calls)
      ensures slot == 0 ==> mem == old(mem) && slots == old(slots)
      ensures Zeroed(old(mem)) ==> slot == 0 && calls == old(calls)
      ensures slot == 0 && AlwaysGranted() && store != 0 ==>
        forall e :: store <= e < store + size - 18 ==> !Int3Run(old(mem), e)
      ensures slot != 0 ==>
        && store <= run < slot <= run + 8 && run + 18 < store + size && slot % 8 == 0 && Int3Run(old(mem), run)
        && (AlwaysGranted() ==> forall e :: store <= e < run ==> !Int3Run(old(mem), e))
        && mem == Write(old(mem), slot, LittleEndian(detour, 8)) && slots == old(slots) + SlotBytes(slot)
        && Claimable(old(mem), slot)
    {
      hide Write, LittleEndian, SlotBytes;
      run := store;
      if store == 0 || size < 18 { return 0, run; }
      var ix := 0;
      while ix < size - 18
        invariant 0 <= ix <= size - 18 && mem == old(mem) && slots == old(slots)
        invariant calls >= old(calls) && (Zeroed(mem) ==> calls == old(calls))
        invariant AlwaysGranted() ==> forall e :: store <= e < store + ix ==> !Int3Run(mem, e)
      {
        run := store + ix;
        var all := IsAllInt3UpTo(store + ix, 18);
        NoRunInZeros(mem, run);
        if all {
          var aligned := (store + ix + 8) / 8 * 8;
          var ok := InstallDetourInAddressStore(aligned, detour);
          if ok {
            assert BlockOf(run + 8) == aligned;
            return aligned, run;
          }
        }
        ix := ix + 1;
      }
      return 0, run;
    }

    /** A redirected site writes within its frame and arrives unless it cannot use its slot. When the code it meets has
        no INT3 neighbours it is firm. An old slot is left as it is. */
    ghost predicate Redirected(before: Memory, was: set<int>, p: PatchData, q: PatchData, detour: int)
      reads this
    {
      && q == p.(fd := q.fd, saved := q.saved, functionOffset := q.functionOffset)
      && q.fd > 0 && q.saved != [] && (p.saved != [] ==> (q.fd, q.saved) == (p.fd, p.saved))
      && SlotsFree(before, was, slots)
      && (p.functionOffset != 0 ==> q.functionOffset == p.functionOffset)
      && (!p.usePatchedImports ==> SiteFrame(before, mem, p))
      && (p.functionOffset == 0 && q.functionOffset != 0 ==> Claimable(before, p.fd + q.functionOffset))
      && (p.functionOffset == 0 && InReach(p) && q.functionOffset != 0 ==> Fits(q.functionOffset - 6))
      && (p.functionOffset == 0 && SlotUsable(q.functionOffset) ==> Arrives(mem, p.fd, q.functionOffset, detour))
      && (p.functionOffset == 0 && SlotUsable(q.functionOffset) && NoPairs(before, p.fd, 14) ==>
            Firm(mem, p.fd, q.functionOffset, detour))
    }

    /** The saved bytes lead back, and in front of the entry only padding was overwritten. */
    ghost predicate Undoable(before: Memory, p: PatchData, q: PatchData)
      reads this
    {
      && q.fd <= p.fd && Agree(Restored(q, mem), before, slots) && PaddedBy(before, p.fd, p.fd - q.fd)
    }

    method PatchNear(p: PatchData, dist: int) returns (q: PatchData)
      requires Tidy(p) && p.fd != 0 && IsNear(dist)
      modifies this`mem
      ensures Redirected(old(mem), slots, p, q, p.fd + dist)
      ensures if PaddedBy(old(mem), p.fd, 5) then PaddedNear(mem, p.fd, p.fd + dist)
        else EntryNear(mem, p.fd, p.fd + dist)
      ensures forall x :: x >= p.fd + 5 ==> mem(x) == old(mem)(x)
      ensures q.functionOffset == p.functionOffset
      ensures p.saved == [] ==> Undoable(old(mem), p, q)
      ensures p.saved == [] ==> (p.fd - q.fd, |q.saved|) == if PaddedBy(old(mem), p.fd, 5) then (5, 7) else (0, 5)
    {
      hide LittleEndian, PaddedNear, EntryNear, Write, Restored, SiteFrame, PaddedBy, Agree, Claimable, Pair;
      ghost var before := mem;
      var f := p.fd;
      var padding := CountPadding(f, 5);
      if padding < 5 {
        q := SaveBytes(p, f, 5);
        mem := Write(mem, f, [0xE9]);
        mem := Write(mem, f + 1, LittleEndian(dist - 5, 4));
        EntryNearWritten(old(mem), f, dist);
        if p.saved == [] { RestoredSaved(q, old(mem), mem, 5); }
        NoPadding(before, f);
        if !p.usePatchedImports { FunctionFrame(before, mem, p, f, 5); }
        UnchangedBehind(before, mem, f, 5);
        if NoPairs(before, f, 14) { PairOutside(before, mem, f, 5); }
      } else {
        q := SaveBytes(p, f - 5, 7);
        mem := Write(mem, f - 5, [0xE9]);
        mem := Write(mem, f - 4, LittleEndian(dist, 4));
        mem := Write(mem, f, [0xEB]);
        mem := Write(mem, f + 1, LittleEndian(-7, 1));
        PaddedNearWritten(old(mem), f, dist);
        if p.saved == [] { RestoredSaved(q, old(mem), mem, 7); }
        if !p.usePatchedImports { FunctionFrame(before, mem, p, f - 5, 7); }
        UnchangedBehind(old(mem), mem, f - 5, 7);
      }
    }

    /** Looks for a slot in the store region, unless the site has one. */
    method ClaimSlot(p: PatchData, detour: int) returns (q: PatchData, ghost slot: int)
      requires Tidy(p) && p.fd != 0
      modifies this`mem, this`slots, this`calls
      ensures q == p.(functionOffset := q.functionOffset) && calls >= old(calls)
      ensures Zeroed(old(mem)) ==> slot == 0 && calls == old(calls)
      ensures slot == 0 ==> q == p && mem == old(mem) && slots == old(slots)
      ensures slot != 0 ==>
        && p.functionOffset == 0 && p.storeFunc != 0 && q.functionOffset == slot - p.fd
        && mem == Write(old(mem), slot, LittleEndian(detour, 8)) && slots == old(slots) + SlotBytes(slot)
        && p.storeFunc < slot && slot + 10 <= p.storeFunc + p.storeSize && Claimable(old(mem), slot)
        && SlotsFree(old(mem), old(slots), slots) && (InReach(p) ==> Fits(slot - p.fd - 6))
      ensures AlwaysGranted() && p.functionOffset == 0 && p.storeFunc != 0 ==>
        forall e :: FirstRun(old(mem), p, e) ==> slot != 0 && slot == BlockOf(e + 8)
    {
      hide LittleEndian, Write, SlotBytes, Int3Run, Zeroed, SlotsFree, Claimable;
      q, slot := p, 0;
      if q.functionOffset == 0 && q.storeFunc != 0 {
        var store, run := GetAndSetAddressStore(q.storeFunc, q.storeSize, detour);
        if store != 0 {
          slot := store;
          ClaimFree(old(mem), old(slots), store);
          q := q.(functionOffset := store - p.fd);
        }
      }
    }

    /** The jump at the entry, with the address behind it unless there is a slot. */
    method JumpFromEntry(p: PatchData, detour: int) returns (q: PatchData)
      requires Tidy(p) && p.fd != 0
      modifies this`mem
      ensures q == p.(fd := q.fd, saved := q.saved) && q.fd > 0 && q.saved != []
      ensures if p.saved != [] then q == p
        else q.fd == p.fd && q.saved == Read(old(mem), p.fd, if p.functionOffset == 0 then 14 else 6)
      ensures p.functionOffset == 0 ==> EntryFar(mem, p.fd, detour) && Outside(old(mem), mem, p.fd, 14)
      ensures p.functionOffset != 0 ==> FarJump(mem, p.fd, p.functionOffset - 6) && Outside(old(mem), mem, p.fd, 6)
      ensures p.functionOffset != 0 && SlotUsable(p.functionOffset) ==>
        (Holds(old(mem), p.fd + p.functionOffset, LittleEndian(detour, 8)) ==>
          SlotFar(mem, p.fd, p.functionOffset, detour))
    {
      hide LittleEndian, EntryFar, SlotFar, Write, Holds, FarJump;
      var f := p.fd;
      if p.functionOffset == 0 {
        q := SaveBytes(p, f, 14);
        mem := Write(mem, f, [0xFF]);
        mem := Write(mem, f + 1, [0x25]);
        mem := Write(mem, f + 2, LittleEndian(0, 4));
        mem := Write(mem, f + 6, LittleEndian(detour, 8));
        EntryFarWritten(old(mem), f, detour);
      } else {
        q := SaveBytes(p, f, 6);
        mem := Write(mem, f, [0xFF]);
        mem := Write(mem, f + 1, [0x25]);
        mem := Write(mem, f + 2, LittleEndian(q.functionOffset - 6, 4));
        SlotJumpWritten(old(mem), f, q.functionOffset, detour);
      }
    }

    /** No padding to use: through a slot of the store region, or with the address in the entry itself. */
    method PatchFarEntry(p: PatchData, detour: int) returns (q: PatchData)
      requires Tidy(p) && p.fd != 0 && IsAddress(detour)
      modifies this`mem, this`slots, this`calls
      ensures Redirected(old(mem), old(slots), p, q, detour) && calls >= old(calls)
      ensures q.functionOffset == 0 ==> EntryFar(mem, p.fd, detour)
      ensures p.storeFunc == 0 && p.functionOffset == 0 ==> Outside(old(mem), mem, p.fd, 14)
      ensures q.functionOffset != 0 ==> ThroughSlot(old(mem), mem, p, q.functionOffset, detour)
      ensures AlwaysGranted() && p.functionOffset == 0 && p.storeFunc != 0 ==>
        forall e :: FirstRun(old(mem), p, e) ==> q.functionOffset == BlockOf(e + 8) - p.fd
      ensures p.saved == [] ==> Undoable(old(mem), p, q)
      ensures p.saved == [] ==> (p.fd - q.fd, |q.saved|) == (0, if q.functionOffset == 0 then 14 else 6)
      ensures p.storeFunc == 0 ==> slots == old(slots) && q.functionOffset == p.functionOffset
      ensures Zeroed(old(mem)) ==> calls == old(calls) && slots == old(slots) && q.functionOffset == p.functionOffset
    {
      hide LittleEndian, EntryFar, SlotFar, Write, Restored, SlotBytes, Holds, Agree, FarJump;
      hide SiteFrame, Claimable, Zeroed, PaddedBy, SlotsFree, Pair, NoPairs, FirstRun;
      SlotsSame(mem, slots);
      AgreeSelf(mem, {});
      var f := p.fd;
      NoPadding(mem, f);
      ghost var slot;
      q, slot := ClaimSlot(p, detour);
      SlotWritten(old(mem), slot, detour);
      ghost var before, claimed := mem, if slot == 0 then {} else SlotBytes(slot);
      ghost var size := if q.functionOffset == 0 then 14 else 6;
      q := JumpFromEntry(q, detour);
      if !p.usePatchedImports {
        if slot == 0 { FunctionFrame(before, mem, p, f, size); }
        else { SlotFrame(old(mem), mem, p, slot, detour, size); }
      }
      if slot != 0 && slot != f && NoPairs(old(mem), f, 14) { SlotFirm(old(mem), mem, slot, f, detour, size); }
      if p.saved == [] {
        RestoredSaved(q, before, mem, size);
        AgreeTrans(Restored(q, mem), before, old(mem), {}, claimed, slots);
      }
    }

    method PatchFar(p: PatchData, detour: int) returns (q: PatchData)
      requires Tidy(p) && p.fd != 0 && IsAddress(detour)
      modifies this`mem, this`slots, this`calls
      ensures Redirected(old(mem), old(slots), p, q, detour) && calls >= old(calls)
      ensures PaddedBy(old(mem), p.fd, 8) || (p.storeFunc == 0 && p.functionOffset == 0) ==>
        FarWritten(old(mem), mem, p.fd, detour)
      ensures !PaddedBy(old(mem), p.fd, 8) && q.functionOffset == 0 ==> EntryFar(mem, p.fd, detour)
      ensures p.saved == [] ==> Undoable(old(mem), p, q)
      ensures p.saved == [] && PaddedBy(old(mem), p.fd, 8) ==>
        (p.fd - q.fd, |q.saved|) == if PaddedBy(old(mem), p.fd, 14) then (14, 16) else (8, 14)
      ensures p.saved == [] && !PaddedBy(old(mem), p.fd, 8) ==>
        (p.fd - q.fd, |q.saved|) == (0, if q.functionOffset == 0 then 14 else 6)
      ensures PaddedBy(old(mem), p.fd, 8) ==> q.functionOffset == p.functionOffset && slots == old(slots)
      ensures !PaddedBy(old(mem), p.fd, 8) && q.functionOffset != 0 ==>
        ThroughSlot(old(mem), mem, p, q.functionOffset, detour)
      ensures p.storeFunc == 0 ==> slots == old(slots) && q.functionOffset == p.functionOffset
      ensures Zeroed(old(mem)) ==>
        && calls == old(calls) && slots == old(slots) && q.functionOffset == p.functionOffset
        && (p.functionOffset == 0 ==> EntryFar(mem, p.fd, detour))
    {
      hide LittleEndian, EntryFar, BehindFar, PaddedFar, SlotFar, Write, Restored, SiteFrame, FarJump;
      hide PaddedBy, Agree, Zeroed, Claimable, NoPairs, ThroughSlot;
      var f := p.fd;
      var padding := CountPadding(f, 14);
      if Zeroed(mem) { ZerosUnpadded(mem, f); }
      if padding < 8 {
        q := PatchFarEntry(p, detour);
      } else if padding < 14 {
        q := SaveBytes(p, f - 8, 14);
        mem := Write(mem, f - 8, LittleEndian(detour, 8));
        mem := Write(mem, f, [0xFF]);
        mem := Write(mem, f + 1, [0x25]);
        mem := Write(mem, f + 2, LittleEndian(-14, 4));
        BehindFarWritten(old(mem), f, detour);
        if p.saved == [] { RestoredSaved(q, old(mem), mem, 14); }
        if !p.usePatchedImports { FunctionFrame(old(mem), mem, p, f - 8, 14); }
        PaddingStops(old(mem), mem, f);
      } else {
        q := SaveBytes(p, f - 14, 16);
        mem := Write(mem, f - 14, [0xFF]);
        mem := Write(mem, f - 13, [0x25]);
        mem := Write(mem, f - 12, LittleEndian(0, 4));
        mem := Write(mem, f - 8, LittleEndian(detour, 8));
        mem := Write(mem, f, [0xEB]);
        mem := Write(mem, f + 1, LittleEndian(-16, 1));
        PaddedFarWritten(old(mem), f, detour);
        if p.saved == [] { RestoredSaved(q, old(mem), mem, 16); }
        if !p.usePatchedImports { FunctionFrame(old(mem), mem, p, f - 14, 16); }
      }
    }

    method PatchFunction(p: PatchData, detour: int) returns (q: PatchData)
      requires Tidy(p) && p.fd != 0 && IsAddress(detour)
      modifies this`mem, this`slots, this`calls
      ensures Redirected(old(mem), old(slots), p, q, detour) && calls >= old(calls)
      ensures p.saved == [] ==> Undoable(old(mem), p, q)
      ensures p.functionOffset == 0 && StoreUsable(old(mem), p) ==> Lands(mem, p.fd, detour)
      ensures IsNear(detour - p.fd) || PaddedBy(old(mem), p.fd, 8) ==> Lands(mem, p.fd, detour)
      // the near layouts exactly within these bounds
      ensures -0x7fff_fff1 < detour - p.fd < 0x7fff_fff0 ==>
        if PaddedBy(old(mem), p.fd, 5) then PaddedNear(mem, p.fd, detour) else EntryNear(mem, p.fd, detour)
      ensures p.storeFunc == 0 || IsNear(detour - p.fd) || PaddedBy(old(mem), p.fd, 8) ==>
        q.functionOffset == p.functionOffset && slots == old(slots)
      ensures !(-0x7fff_fff1 < detour - p.fd < 0x7fff_fff0) ==>
        (PaddedBy(old(mem), p.fd, 8) || (p.storeFunc == 0 && p.functionOffset == 0) ==>
          FarWritten(old(mem), mem, p.fd, detour))
      ensures !IsNear(detour - p.fd) && !PaddedBy(old(mem), p.fd, 8) && q.functionOffset != 0 ==>
        ThroughSlot(old(mem), mem, p, q.functionOffset, detour)
      ensures IsNear(detour - p.fd) ==> forall x :: x >= p.fd + 5 ==> mem(x) == old(mem)(x)
      ensures p.saved == [] ==> q.fd == p.fd - Moved(old(mem), p.fd, detour)
      ensures p.saved == [] && p.functionOffset == 0 && q.functionOffset != 0 ==> |q.saved| == 6
      ensures Zeroed(old(mem)) && p.functionOffset == 0 ==>
        calls == old(calls) && slots == old(slots) && !Agree(mem, old(mem), {})
    {
      hide Lands, Zeroed, Agree, PaddedNear, PaddedFar, BehindFar, SlotFar, PaddedBy, Claimable, NoPairs, SiteFrame,
        Firm;
      hide ThroughSlot, FarWritten;
      var dist := detour - p.fd;
      if IsNear(dist) {
        q := PatchNear(p, dist);
        if Zeroed(old(mem)) { ZerosUnpadded(old(mem), p.fd); }
      } else {
        q := PatchFar(p, detour);
      }
      if Zeroed(old(mem)) && p.functionOffset == 0 { ByteShows(old(mem), mem, p.fd); }
      if PaddedBy(old(mem), p.fd, 14) { PaddedLess(old(mem), p.fd, 14, 8); }
      if !IsNear(dist) && PaddedBy(old(mem), p.fd, 8) { FarArrives(old(mem), mem, p.fd, detour); }
      if IsNear(dist) || PaddedBy(old(mem), p.fd, 8) { ArrivesLands(mem, p.fd, 0, detour); }
      if p.functionOffset == 0 && StoreUsable(old(mem), p) {
        if q.functionOffset != 0 { ClaimClear(old(mem), p.fd + q.functionOffset, p.fd, 6); }
        ArrivesLands(mem, p.fd, q.functionOffset, detour);
      }
    }

    method Patch(p: PatchData, addr: int) returns (q: PatchData)
      requires Tidy(p) && p.fd != 0 && IsAddress(addr)
      modifies this`mem, this`slots, this`calls
      ensures q == p.(fd := q.fd, saved := q.saved, functionOffset := q.functionOffset) && q.fd != 0
      ensures Tidy(q) && old(slots) <= slots && calls >= old(calls)
      ensures p.saved == [] ==> Agree(Restored(q, mem), old(mem), slots)
      ensures SiteFrame(old(mem), mem, p)
      ensures p.functionOffset == 0 ==> SitePatched(old(mem), mem, p, q.functionOffset)
      ensures p.functionOffset == 0 && InReach(p) && Ready(old(mem), p) ==> Stands(mem, p, q.functionOffset, addr)
      ensures addr == 0 ==> q == p && mem == old(mem) && slots == old(slots) && calls == old(calls)
      ensures addr != 0 ==> q.saved != []
      ensures addr != 0 && !p.usePatchedImports ==> Redirected(old(mem), old(slots), p, q, addr)
      ensures addr != 0 && p.usePatchedImports ==>
        slots == old(slots) && calls == old(calls) && mem == Write(old(mem), p.fd, LittleEndian(addr, 8))
      ensures addr != 0 && Zeroed(old(mem)) && p.functionOffset == 0 ==>
        calls == old(calls) && slots == old(slots) && !Agree(mem, old(mem), {})
    {
      hide LittleEndian, Write, Arrives, Firm, InReach, Outside, Holds, Zeroed, Agree, SiteFrame, Undoable, Claimable,
        NoPairs;
      q := p;
      AgreeSelf(mem, slots);
      SiteFrameSelf(mem);
      if addr == 0 { return; }
      if !p.usePatchedImports {
        q := PatchFunction(p, addr);
        if p.saved == [] { UndoableAgrees(old(mem), p, q); }
        if q.functionOffset != 0 && InReach(p) && p.functionOffset == 0 && Ready(old(mem), p) {
          ClaimClear(old(mem), p.fd + q.functionOffset, p.fd, 14);
        }
      } else {
        q := SaveBytes(p, 0, 8);
        mem := Write(mem, p.fd, LittleEndian(addr, 8));
        if p.saved == [] { ImportRestored(q, old(mem), addr, slots); }
        ImportWritten(old(mem), p.fd, addr);
        ImportFrame(old(mem), mem, p);
        if Zeroed(old(mem)) { AddressShows(old(mem), p.fd, addr); }
      }
    }

    lemma UndoableAgrees(before: Memory, p: PatchData, q: PatchData)
      requires Undoable(before, p, q)
      ensures Agree(Restored(q, mem), before, slots)
    {
    }

    /** The saved bytes are back where they belong and nothing else changed. */
    method Unpatch(p: PatchData)
      modifies this`mem
      ensures p.saved == [] || p.fd == 0 ==> mem == old(mem)
      ensures p.saved != [] && p.fd != 0 ==>
        && mem == Restored(p, old(mem))
        && Holds(mem, p.fd, p.saved) && Outside(old(mem), mem, p.fd, |p.saved|)
    {
      if p.saved == [] || p.fd == 0 { return; }
      mem := Write(mem, p.fd, p.saved);
    }

    /** One site: nothing to do, done before, refused, or done. A site nothing was done to before is then
        undoable and stands. */
    method HandlePatch(e: Entry, at: int, mode: Mode) returns (ok: bool, f: Entry)
      requires TidySites(e.patches) && IsAddress(e.targetAddr) && IsAddress(e.termAddr)
      modifies this`mem, this`slots, this`calls
      ensures !(0 <= at < 4) ==> !ok
      ensures !ok ==> f == e && mem == old(mem) && slots == old(slots)
      ensures f == e.(patches := f.patches) && TidySites(f.patches)
      ensures forall a :: 0 <= a < PATCH_DATA_COUNT && a != at ==> f.patches[a] == e.patches[a]
      ensures old(slots) <= slots && calls >= old(calls)
      ensures AlwaysGranted() && 0 <= at < 4 ==> ok
      ensures ok ==> f.patches[at].modeStore == if e.patches[at].fd == 0 then Unpatched else mode
      ensures ok ==> (f.patches[at].fd == 0 <==> e.patches[at].fd == 0)
      ensures 0 <= at < PATCH_DATA_COUNT && (e.patches[at].fd == 0 || e.patches[at].modeStore == mode) ==>
        ok && f == e && mem == old(mem) && slots == old(slots) && calls == old(calls)
      // undoing
      ensures mode == Unpatched ==> slots == old(slots)
      ensures mode == Unpatched && ok ==> mem == Undo(e.patches[at], old(mem))
      ensures 0 <= at < PATCH_DATA_COUNT && mode == Unpatched ==>
        (ok <==> e.patches[at].modeStore == Unpatched || e.patches[at].saved == [] || grants(old(calls)))
      // patching
      ensures 0 <= at < PATCH_DATA_COUNT && mode != Unpatched && e.patches[at].fd != 0 ==>
        SiteFrame(old(mem), mem, e.patches[at])
      ensures 0 <= at < PATCH_DATA_COUNT && mode != Unpatched && Fresh(e.patches[at]) && e.patches[at].fd != 0 ==>
        && (ok <==> grants(old(calls)))
        && (ok ==> SitePatched(old(mem), mem, e.patches[at], f.patches[at].functionOffset))
        && (ok && InReach(e.patches[at]) && Ready(old(mem), e.patches[at]) ==>
            Stands(mem, e.patches[at], f.patches[at].functionOffset, RawTarget(e, mode)))
        && (ok && RawTarget(e, mode) == 0 ==>
            mem == old(mem) && slots == old(slots) && calls == old(calls) + 2 && f.patches[at].saved == [])
        && (ok && RawTarget(e, mode) != 0 && Zeroed(old(mem)) ==>
            && slots == old(slots) && calls == old(calls) + 2 && f.patches[at].saved != []
            && SiteMarked(old(mem), mem, e.patches[at], RawTarget(e, mode)))
      ensures ok && mode != Unpatched && Fresh(e.patches[at]) ==> Agree(Undo(f.patches[at], mem), old(mem), slots)
    {
      hide Write, LittleEndian, Stands, InReach, Ready, SiteFrame, Zeroed, Redirected, Agree, Restored, Claimable;
      f := e;
      SiteFrameSelf(mem);
      AgreeSelf(mem, slots);
      if at < 0 || at >= PATCH_DATA_COUNT { return false, f; }
      var p := e.patches[at];
      if p.fd == 0 { return true, f; }
      if p.modeStore == mode { return true, f; }
      if mode == Unpatched && p.saved == [] {
        NothingRestored(p, mem);
        f := e.(patches := e.patches[at := p.(modeStore := Unpatched)]);
        return true, f;
      }
      ok := ChangeProtect();
      if !ok { return false, f; }
      if mode == Unpatched {
        Unpatch(p);
      } else if mode == Patched {
        p := Patch(p, e.targetAddr);
      } else {
        p := Patch(p, e.termAddr);
      }
      RestoredSame(p, p.(modeStore := mode), mem);
      p := p.(modeStore := mode);
      f := e.(patches := e.patches[at := p]);
      var _ := ChangeProtect();
    }

    ghost function Now(): Status
      reads this
    {
      Status(mem, slots, calls)
    }

    /** Forward through the sites until one is refused, which the ghost result names. */
    method PatchSites(e: Entry, mode: Mode) returns (ok: bool, f: Entry, ghost at: nat)
      requires TidyEntry(e) && e.patches[0].fd != 0 && mode != Unpatched
      modifies this`mem, this`slots, this`calls
      ensures TidyEntry(f) && f == e.(patches := f.patches) && old(slots) <= slots && calls >= old(calls)
      ensures AlwaysGranted() ==> ok
      ensures FreshEntry(e) && ok ==> EntryProgress(old(mem), mem, e, f, RawTarget(e, mode), PATCH_DATA_COUNT)
      ensures FreshEntry(e) ==> Agree(UndoEntry(f.patches, PATCH_DATA_COUNT, mem), old(mem), slots)
      ensures FreshEntry(e) ==> SitesTried(e, RawTarget(e, mode), ok, f, at, old(Now()), Now(), grants)
    {
      hide Write, LittleEndian, Agree, Undo, InReach, UndoEntry, Stands, SiteFrame, EntryProgress, LiveUpTo;
      hide SiteMarked, Zeroed, SitesDone, SitesTried, SitePatched, Ready;
      f := e;
      AgreeSelf(mem, slots);
      UndoEntryNone(f.patches, mem);
      ghost var start, target := Now(), RawTarget(e, mode);
      EntryProgressNone(mem, e, f, target);
      if FreshEntry(e) { SitesDoneNone(e, target, f, start, grants); }
      var ix := 0;
      while ix < PATCH_DATA_COUNT
        invariant 0 <= ix <= PATCH_DATA_COUNT && TidySites(f.patches) && f == e.(patches := f.patches)
        invariant old(slots) <= slots && calls >= old(calls)
        invariant forall a :: ix <= a < PATCH_DATA_COUNT ==> f.patches[a] == e.patches[a]
        invariant f.patches[0].fd != 0
        invariant FreshEntry(e) ==> EntryProgress(start.mem, mem, e, f, target, ix)
        invariant FreshEntry(e) ==> Agree(UndoEntry(f.patches, ix, mem), start.mem, slots)
        invariant FreshEntry(e) ==> SitesDone(e, target, f, ix, start, Now(), grants)
      {
        ghost var f0, now := f, Now();
        ok, f := HandlePatch(f, ix, mode);
        if !ok {
          at := ix;
          if FreshEntry(e) {
            UndoEntryIdle(f.patches, ix, PATCH_DATA_COUNT, mem);
            SitesRefused(e, target, f0, ix, start, now, Now(), grants);
          }
          return;
        }
        if FreshEntry(e) {
          EntryProgressMore(start.mem, now.mem, mem, e, f0, f, target, ix);
          SiteUndone(f0.patches, f.patches, ix, now.mem, mem, start.mem, now.slots, slots);
          SitesDoneMore(e, target, f0, f, ix, start, now, Now(), grants);
        }
        ix := ix + 1;
      }
      if FreshEntry(e) { SitesAllDone(e, target, f, start, Now(), grants); }
      return true, f, ix;
    }

    /** Backward through the sites, whatever is refused. */
    method UndoSites(e: Entry) returns (ok: bool, f: Entry)
      requires TidyEntry(e)
      modifies this`mem, this`slots, this`calls
      ensures TidyEntry(f) && f == e.(patches := f.patches) && slots == old(slots) && calls >= old(calls)
      ensures ok ==> mem == UndoEntry(e.patches, PATCH_DATA_COUNT, old(mem))
      ensures Idle(e) ==> ok && f == e && mem == old(mem)
      ensures Bare(e) ==> ok && mem == old(mem)
      ensures AlwaysGranted() ==> ok
      ensures RefusedFrom(old(calls)) ==> mem == old(mem) && (Retained(e) ==> !ok)
    {
      hide Write, LittleEndian, Agree, Undo, InReach, Stands, SiteFrame, Ready, SitePatched;
      f := e;
      ok := true;
      var ix := PATCH_DATA_COUNT - 1;
      while ix >= 0
        invariant -1 <= ix < PATCH_DATA_COUNT && TidySites(f.patches) && f == e.(patches := f.patches)
        invariant forall a :: 0 <= a <= ix ==> f.patches[a] == e.patches[a]
        invariant f.patches[0].fd == 0 <==> e.patches[0].fd == 0
        invariant slots == old(slots) && calls >= old(calls)
        invariant ok ==> UndoEntry(e.patches, ix + 1, mem) == UndoEntry(e.patches, PATCH_DATA_COUNT, old(mem))
        invariant Idle(e) ==> ok && f == e && mem == old(mem)
        invariant Bare(e) || AlwaysGranted() ==> ok
        invariant Bare(e) ==> mem == old(mem)
        invariant RefusedFrom(old(calls)) ==> mem == old(mem) && (ix == -1 && Retained(e) ==> !ok)
      {
        var done;
        NothingUndone(f.patches[ix], mem);
        done, f := HandlePatch(f, ix, Unpatched);
        if !done { ok := false; }
        ix := ix - 1;
      }
    }

    /** No request from this one on is granted. */
    ghost predicate RefusedFrom(start: nat) {
      forall n: nat :: n >= start ==> !grants(n)
    }

    /** All sites of one entry: forward until one is refused, or backward through all of them. */
    method Handle(e: Entry, given: Mode) returns (ok: bool, f: Entry, ghost at: nat)
      requires TidyEntry(e)
      modifies this`mem, this`slots, this`calls
      ensures TidyEntry(f) && f == e.(patches := f.patches) && old(slots) <= slots && calls >= old(calls)
      ensures given == Unpatched ==> slots == old(slots)
      ensures AlwaysGranted() ==> ok
      ensures given == Unpatched && ok ==> mem == UndoEntry(e.patches, PATCH_DATA_COUNT, old(mem))
      ensures given == Unpatched && Idle(e) ==> ok && f == e && mem == old(mem)
      ensures given == Unpatched && Bare(e) ==> ok && mem == old(mem)
      ensures given == Unpatched && RefusedFrom(old(calls)) ==> mem == old(mem) && (Retained(e) ==> !ok)
      ensures given != Unpatched && FreshEntry(e) ==> EntryPatched(e, given, ok, f, at, old(Now()), Now(), grants)
    {
      hide Write, LittleEndian, Agree, Undo, InReach, Stands, SiteFrame, Usable, ReadyEntry, Ready, Respects;
      hide SitesTried, UndoEntry, ClaimsClear;
      f, at := e, 0;
      if e.patches[0].fd == 0 {
        UndoEntryIdle(e.patches, 0, PATCH_DATA_COUNT, mem);
        UndoEntryNone(e.patches, mem);
        AgreeSelf(mem, slots);
        if FreshEntry(e) { NothingPatched(mem, e); }
        return true, f, at;
      }
      var mode := given;
      if mode == PatchedTerm && !e.hasTerm { mode := Patched; }
      if mode == Unpatched {
        ok, f := UndoSites(e);
      } else {
        ok, f, at := PatchSites(e, mode);
      }
    }

    method PatchAll(mode: Mode) returns (ok: bool)
      requires TidyTable(table) && mode != Unpatched
      modifies this`mem, this`slots, this`calls, this`table
      ensures TidyTable(table) && |table| == |old(table)| && old(slots) <= slots && calls >= old(calls)
      ensures forall i :: 0 <= i < PATCH_COUNT ==> table[i].named == old(table)[i].named
      ensures forall k: nat :: IdleFrom(old(table), k) ==> IdleFrom(table, k)
      ensures AlwaysGranted() ==> ok
      ensures FreshTable(old(table)) ==> Finished(old(table), table, mode, ok, old(Now()), Now(), grants)
    {
      hide Progress, Finished, EntryPatched, UndoEntry, Agree, Usable, EntryStands, EntryTried;
      ghost var t0, start := table, Now();
      var ix := 0;
      if FreshTable(t0) { ProgressNone(t0, mode, start, grants); }
      while ix < PATCH_COUNT
        invariant 0 <= ix <= PATCH_COUNT && TidyTable(table) && |table| == |t0|
        invariant old(slots) <= slots && calls >= old(calls)
        invariant forall i :: ix <= i < PATCH_COUNT ==> table[i] == t0[i]
        invariant forall i :: 0 <= i < PATCH_COUNT ==> table[i].named == t0[i].named
        invariant forall i :: 0 <= i < ix ==> t0[i].named
        invariant FreshTable(t0) ==> Progress(t0, table, mode, ix, start, Now(), grants)
      {
        ghost var t, now := table, Now();
        if !table[ix].named { break; }
        var f;
        ghost var at;
        ok, f, at := Handle(table[ix], mode);
        table := table[ix := f];
        if FreshTable(t0) { ProgressNext(t0, t, table, mode, ix, ok, at, start, now, Now(), grants); }
        if !ok { return false; }
        ix := ix + 1;
      }
      if FreshTable(t0) { ProgressEnds(t0, table, mode, ix, start, Now(), grants); }
      return true;
    }

    method UndoAll() returns (ok: bool)
      requires TidyTable(table)
      modifies this`mem, this`slots, this`calls, this`table
      ensures TidyTable(table) && |table| == |old(table)| && slots == old(slots)
      ensures forall i :: 0 <= i < PATCH_COUNT ==> table[i].named == old(table)[i].named
      ensures ok && AllNamed(table) ==> mem == UndoTable(old(table), PATCH_COUNT, old(mem))
      ensures forall k: nat :: IdleFrom(old(table), k) ==> ok && mem == old(mem) && table == old(table)
      ensures BareTable(old(table)) ==> ok && mem == old(mem)
      ensures AlwaysGranted() ==> ok
      ensures RefusedFrom(old(calls)) ==> mem == old(mem)
      ensures RefusedFrom(old(calls)) && AllNamed(old(table)) ==>
        forall i :: 0 <= i < PATCH_COUNT && Retained(old(table)[i]) ==> !ok
    {
      hide UndoEntry, UndoTable;
      ok := true;
      var ix := PATCH_COUNT - 1;
      ghost var t0 := table;
      while ix >= 0
        invariant -1 <= ix < PATCH_COUNT && TidyTable(table) && |table| == |t0| && slots == old(slots)
        invariant calls >= old(calls)
        invariant forall i :: 0 <= i <= ix ==> table[i] == t0[i]
        invariant forall i :: 0 <= i < PATCH_COUNT ==> table[i].named == t0[i].named
        invariant ok ==> UndoTable(t0, ix + 1, mem) == UndoTable(t0, PATCH_COUNT, old(mem))
        invariant forall k: nat :: IdleFrom(t0, k) ==> k <= ix && ok && mem == old(mem) && table == t0
        invariant AlwaysGranted() ==> ok
        invariant BareTable(t0) ==> ok && mem == old(mem)
        invariant RefusedFrom(old(calls)) ==> mem == old(mem)
        invariant forall i :: ix < i < PATCH_COUNT && RefusedFrom(old(calls)) && Retained(t0[i]) ==> !ok
      {
        if !table[ix].named { break; }
        var done, f;
        ghost var at;
        UndoTableStep(t0, ix, mem);
        done, f, at := Handle(table[ix], Unpatched);
        table := table[ix := f];
        if !done { ok := false; }
        ix := ix - 1;
      }
      UndoTableNone(t0, mem);
    }

    method ModifyAllPatches(mode: Mode) returns (ok: bool)
      requires TidyTable(table)
      modifies this
      ensures TidyTable(table) && |table| == |old(table)| && old(slots) <= slots && lastMode == mode
      ensures AlwaysGranted() ==> ok
      ensures forall i :: 0 <= i < PATCH_COUNT ==> table[i].named == old(table)[i].named
      ensures mode == old(lastMode) ==>
        ok && mem == old(mem) && table == old(table) && slots == old(slots) && calls == old(calls)
      // undoing
      ensures mode == Unpatched ==> slots == old(slots)
      ensures mode == Unpatched && mode != old(lastMode) && ok && AllNamed(table) ==>
        mem == UndoTable(old(table), PATCH_COUNT, old(mem))
      ensures forall k: nat :: mode == Unpatched && IdleFrom(old(table), k) ==>
        ok && mem == old(mem) && table == old(table)
      ensures mode == Unpatched && BareTable(old(table)) ==> ok && mem == old(mem)
      ensures mode == Unpatched && RefusedFrom(old(calls)) ==> mem == old(mem)
      ensures mode == Unpatched && mode != old(lastMode) && RefusedFrom(old(calls)) && AllNamed(old(table)) ==>
        forall i :: 0 <= i < PATCH_COUNT && Retained(old(table)[i]) ==> !ok
      // patching
      ensures forall k: nat :: mode != Unpatched && IdleFrom(old(table), k) ==> IdleFrom(table, k)
      ensures mode != Unpatched && mode != old(lastMode) && FreshTable(old(table)) ==>
        Finished(old(table), table, mode, ok, old(Now()), Now(), grants)
    {
      hide Finished, UndoTable;
      if mode == lastMode { return true; }
      lastMode := mode;
      if mode == Unpatched {
        ok := UndoAll();
      } else {
        ok := PatchAll(mode);
      }
    }

    /** Patches or undoes the table; a failed patching run is rolled back. `stopped` is the memory at which
        patching stopped. */
    method HandlePatching(mode: Mode) returns (r: Outcome, ghost stopped: Memory)
      requires |table| >= PATCH_COUNT ==> TidyTable(table)
      modifies this
      ensures |table| == |old(table)| && old(slots) <= slots
      // a table of fewer than 56 entries is refused, and no other
      ensures |table| >= 56 && AlwaysGranted() ==> r == Success
      ensures |table| < 56 ==>
        r == Failed && mem == old(mem) && table == old(table) && lastMode == old(lastMode)
      ensures |table| >= PATCH_COUNT ==>
        TidyTable(table) && lastMode == if r == Success || mode == Unpatched then mode else Unpatched
      ensures |table| >= PATCH_COUNT && mode == old(lastMode) ==>
        r == Success && mem == old(mem) && table == old(table) && slots == old(slots) && calls == old(calls)
      // undoing
      ensures |table| >= PATCH_COUNT && mode == Unpatched ==> r != Partial && slots == old(slots)
      ensures |table| >= PATCH_COUNT && mode == Unpatched && mode != old(lastMode) && AllNamed(table) ==>
        (r == Success ==> mem == UndoTable(old(table), PATCH_COUNT, old(mem)))
      // patching a table nothing was done to
      ensures |table| >= PATCH_COUNT && mode != Unpatched && mode != old(lastMode) && FreshTable(old(table)) ==>
        && (r == Success ==> mem == stopped && Agree(UndoTable(table, PATCH_COUNT, mem), old(mem), slots))
        && (r == Success && AllNamed(old(table)) && Spaced(old(table)) && ReadyTable(old(mem), old(table)) ==>
            TableStands(mem, old(table), table, mode, PATCH_COUNT))
        && (r == Failed && AllNamed(old(table)) ==> Agree(mem, old(mem), slots))
        && (r == Failed && !AllNamed(old(table)) ==>
            mem == stopped && Agree(UndoTable(table, PATCH_COUNT, mem), old(mem), slots))
        && (r != Success && !Exposed(old(table), mode) ==> r == Failed && mem == old(mem))
        && (r == Partial ==> AllNamed(old(table)))
        // and when the request after the first effective site is refused
        && (Zeroed(old(mem)) && Trial(old(table), mode, grants, old(calls)) ==>
            && r == (if AllNamed(old(table)) then Partial else Failed) && mem == stopped && slots == old(slots)
            && FirstShown(old(table), mode, old(mem), mem))
    {
      hide UndoTable, TableStands, Spaced, ReadyTable, Exposed, Zeroed, Trial, Shown, FirstShown, Agree;
      stopped := mem;
      if |table| < PATCH_COUNT { return Failed, stopped; }
      ghost var t0, start := table, Now();
      if FreshTable(t0) { UnnamedIdle(t0); }
      var didSucceed := ModifyAllPatches(mode);
      stopped := mem;
      AgreeSelf(mem, slots);
      if !didSucceed && mode != Unpatched {
        ghost var now, t := Now(), table;
        if FreshTable(t0) && Zeroed(start.mem) && Trial(t0, mode, grants, start.calls) {
          ShownFirst(t0, t, mode, start, now, grants);
        }
        var undone := ModifyAllPatches(Unpatched);
        if !undone { return Partial, stopped; }
      }
      return if didSucceed then Success else Failed, stopped;
    }
  }

  /** After a successful run over named, spaced entries every function entered at its old address leaves
      for its detour, and every import slot holds its detour's address. */
  method Enable(patcher: Patcher, mode: Mode) returns (enabled: Outcome)
    requires FreshTable(patcher.table) && patcher.lastMode == Unpatched && mode != Unpatched
    modifies patcher
    ensures patcher.AlwaysGranted() ==> enabled == Success
    ensures (&& enabled == Success && AllNamed(old(patcher.table)) && Spaced(old(patcher.table))
             && ReadyTable(old(patcher.mem), old(patcher.table))) ==>
      forall i, a :: 0 <= i < PATCH_COUNT && 0 <= a < PATCH_DATA_COUNT ==>
        Delivers(patcher.mem, old(patcher.table)[i], a, mode)
  {
    hide TableStands, Spaced, ReadyTable, Delivers, UndoTable, Agree;
    ghost var t, start := patcher.table, patcher.mem;
    FreshIsTidy(t);
    ghost var stopped;
    enabled, stopped := patcher.HandlePatching(mode);
    if enabled == Success && AllNamed(t) && Spaced(t) && ReadyTable(start, t) {
      forall i, a | 0 <= i < PATCH_COUNT && 0 <= a < PATCH_DATA_COUNT ensures Delivers(patcher.mem, t[i], a, mode) {
        StandingDelivers(patcher.mem, t, patcher.table, mode, i, a);
      }
    }
  }

  /** Disabling does its work exactly when enabling succeeded, and when both succeed every byte outside the slots
      is as it was. After a failure or a refused rollback it reports success and changes nothing. */
  method EnableThenDisable(patcher: Patcher, mode: Mode) returns (enabled: Outcome, disabled: Outcome, kept: Memory)
    requires FreshTable(patcher.table) && patcher.lastMode == Unpatched && mode != Unpatched
    modifies patcher
    ensures enabled != Success ==> disabled == Success && patcher.mem == kept
    ensures enabled == Success && disabled == Success && AllNamed(patcher.table) ==>
      Agree(patcher.mem, old(patcher.mem), patcher.slots)
  {
    hide TableStands, Spaced, ReadyTable, UndoTable, Agree;
    FreshIsTidy(patcher.table);
    ghost var stopped;
    enabled, stopped := patcher.HandlePatching(mode);
    kept := patcher.mem;
    disabled, stopped := patcher.HandlePatching(Unpatched);
  }

  /** Runs the table over memory of zeros with the request after the first effective site refused. Some bytes stay
      patched exactly for exposed tables, which is reported as a full undo when an entry is unnamed and as
      a partial one otherwise; asking to undo after that changes nothing. */
  method WorstRun(table: seq<Entry>, mode: Mode)
    returns (before: Memory, after: Memory, r: Outcome, kept: Memory, again: Outcome, ghost slots: set<int>)
    requires FreshTable(table) && mode != Unpatched
    ensures Zeroed(before)
    ensures Exposed(table, mode) <==> r != Success && !Agree(after, before, slots)
    ensures Exposed(table, mode) ==>
      && r == (if AllNamed(table) then Partial else Failed) && FirstShown(table, mode, before, after)
      && again == Success && kept == after
  {
    hide TableStands, Spaced, ReadyTable, UndoTable, Exposed, Followed, LiveTotal, FirstEffective;
    FreshIsTidy(table);
    ExposedFirst(table, mode);
    before := _ => 0;
    var limit := 2 * LiveTotal(table, FirstEffective(table, mode, 0)) + 2;
    var patcher := new Patcher((n: nat) => n < limit, before, table);
    assert Exposed(table, mode) ==> Trial(table, mode, patcher.grants, 0);
    ghost var stopped;
    r, stopped := patcher.HandlePatching(mode);
    after, slots := patcher.mem, patcher.slots;
    again, stopped := patcher.HandlePatching(Unpatched);
    kept := patcher.mem;
  }

  /** Two import slots of one function, and no other site. */
  function SmallTable(named: bool): seq<Entry> {
    var none := PatchData(false, 0, Unpatched, 0, 0, 0, []);
    var slot := none.(usePatchedImports := true, fd := 0x1000);
    var used := Entry(true, false, 7, 0, [slot, slot.(fd := 0x2000), none, none]);
    [used] + seq(PATCH_COUNT - 1, _ => Entry(named, false, 0, 0, [none, none, none, none]))
  }

  lemma SmallExposed(named: bool)
    ensures FreshTable(SmallTable(named)) && Exposed(SmallTable(named), Patched)
    ensures AllNamed(SmallTable(named)) <==> named
    ensures FirstEffective(SmallTable(named), Patched, 0) == 0 && SmallTable(named)[0].targetAddr == 7
    ensures SmallTable(named)[0].patches[0].fd == 0x1000 && SmallTable(named)[0].patches[0].usePatchedImports
  {
    hide FirstEffective;
    var t := SmallTable(named);
    assert EffectiveSite(t[0], 0, Patched);
    assert !t[1].named <==> !named;
    assert ExposedAt(t, Patched, 0, 0, 0, 1);
  }

  lemma FirstByteWritten(m: Memory)
    ensures Write(m, 0x1000, LittleEndian(7, 8))(0x1000) == 7
  {
    assert LittleEndian(7, 8)[0] == 7;
  }

  /** With all entries named such a run is partial; with an unnamed entry it is reported as undone. The import
      slot keeps the detour's address either way, and asking to undo reports success. */
  method RefusedRollback(named: bool) returns (before: Memory, after: Memory, r: Outcome, kept: Memory, again: Outcome)
    ensures r == if named then Partial else Failed
    ensures before(0x1000) == 0 && after(0x1000) == 7
    ensures again == Success && kept == after
  {
    hide SmallTable, FreshTable, Exposed, AllNamed, FirstEffective, LittleEndian, Write, Agree;
    SmallExposed(named);
    ghost var slots;
    before, after, r, kept, again, slots := WorstRun(SmallTable(named), Patched);
    FirstByteWritten(before);
  }
}
