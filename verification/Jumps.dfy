/** Byte memory, little-endian numbers in it, and the three x86-64 jumps the detours are made of. */
module Jumps {
  import opened Wrappers

  type Byte = x: int | 0 <= x < 256
  type Memory = int -> Byte

  const INT3: Byte := 0xCC
  const NOP: Byte := 0x90

  function Write(m: Memory, at: int, bytes: seq<Byte>): Memory {
    x => if at <= x < at + |bytes| then bytes[x - at] else m(x)
  }

  function Read(m: Memory, at: int, size: nat): (r: seq<Byte>)
    ensures |r| == size
    ensures forall i :: 0 <= i < size ==> r[i] == m(at + i)
  {
    seq(size, i requires 0 <= i < size => m(at + i))
  }

  /** Two memories differ at most inside `except`. */
  ghost predicate Agree(m: Memory, n: Memory, except: set<int>) {
    forall x :: x !in except ==> m(x) == n(x)
  }

  /** The bytes at `at` are exactly these. */
  ghost predicate Holds(m: Memory, at: int, bytes: seq<Byte>) {
    forall i :: 0 <= i < |bytes| ==> m(at + i) == bytes[i]
  }

  // ---- little-endian numbers, in two's complement

  function Pow256(n: nat): (r: int)
    ensures r > 0
  {
    if n == 0 then 1 else 256 * Pow256(n - 1)
  }

  function LittleEndian(v: int, n: nat): (r: seq<Byte>)
    ensures |r| == n
    decreases n
  {
    if n == 0 then [] else [v % 256] + LittleEndian(v / 256, n - 1)
  }

  function Load(m: Memory, at: int, n: nat): (r: nat)
    ensures r < Pow256(n)
    decreases n
  {
    if n == 0 then 0 else m(at) + 256 * Load(m, at + 1, n - 1)
  }

  function Signed(v: nat, n: nat): int {
    if 2 * v < Pow256(n) then v else v - Pow256(n)
  }

  lemma ModUnique(v: int, q: int, p: int, r: int)
    requires p > 0 && v == q * p + r && 0 <= r < p
    ensures v % p == r
  {
    var d := v / p - q;
    assert r - v % p == d * p;
    assert d > 0 ==> d * p >= p;
    assert d < 0 ==> d * p <= -p;
  }

  /** A number stored byte by byte loads as itself, up to the width of the store. */
  lemma {:induction false} LoadStored(m: Memory, at: int, v: int, n: nat)
    requires Holds(m, at, LittleEndian(v, n))
    ensures Load(m, at, n) == v % Pow256(n)
    decreases n
  {
    if n > 0 {
      var all, rest := LittleEndian(v, n), LittleEndian(v / 256, n - 1);
      assert all[0] == v % 256 && m(at + 0) == all[0];
      forall i | 0 <= i < n - 1 ensures m(at + 1 + i) == rest[i] {
        assert m(at + (i + 1)) == all[i + 1];
      }
      LoadStored(m, at + 1, v / 256, n - 1);
      var p, q := Pow256(n - 1), v / 256;
      calc {
        v;
        256 * q + v % 256;
        256 * (p * (q / p) + q % p) + v % 256;
        (q / p) * (256 * p) + (256 * (q % p) + v % 256);
      }
      ModUnique(v, q / p, 256 * p, 256 * (q % p) + v % 256);
    }
  }

  /** A displacement survives the store exactly when it fits. */
  lemma SignedStored(m: Memory, at: int, v: int)
    requires Holds(m, at, LittleEndian(v, 4))
    ensures Signed(Load(m, at, 4), 4) == v <==> -0x8000_0000 <= v < 0x8000_0000
  {
    hide LittleEndian, Load;
    LoadStored(m, at, v, 4);
    assert Pow256(1) == 256;
    assert Pow256(2) == 0x1_0000;
    assert Pow256(3) == 0x100_0000;
    assert Pow256(4) == 0x1_0000_0000;
  }

  lemma AddressStored(m: Memory, at: int, v: int)
    requires 0 <= v < 0x1_0000_0000_0000_0000
    requires Holds(m, at, LittleEndian(v, 8))
    ensures Load(m, at, 8) == v
  {
    hide LittleEndian, Load;
    LoadStored(m, at, v, 8);
    assert Pow256(4) == 0x1_0000_0000 by {
      assert Pow256(1) == 256;
      assert Pow256(2) == 0x1_0000;
      assert Pow256(3) == 0x100_0000;
    }
    assert Pow256(5) == 0x100_0000_0000;
    assert Pow256(6) == 0x1_0000_0000_0000;
    assert Pow256(7) == 0x100_0000_0000_0000;
    assert Pow256(8) == 0x1_0000_0000_0000_0000;
  }

  // ---- jumps

  /** Where the instruction at `ip` jumps: JMP rel32, JMP rel8, or JMP through [rip + disp32]. */
  function Hop(m: Memory, ip: int): Option<int> {
    if m(ip) == 0xE9 then Some(ip + 5 + Signed(Load(m, ip + 1, 4), 4))
    else if m(ip) == 0xEB then Some(ip + 2 + Signed(Load(m, ip + 1, 1), 1))
    else if m(ip) == 0xFF && m(ip + 1) == 0x25 then
      Some(Load(m, ip + 6 + Signed(Load(m, ip + 2, 4), 4), 8))
    else None
  }

  /** Control that enters at `ip` leaves for `target`, in one jump or in two. */
  predicate Lands(m: Memory, ip: int, target: int) {
    var first := Hop(m, ip);
    first.Some? && (first.value == target || Hop(m, first.value) == Some(target))
  }

  lemma NearHop(m: Memory, ip: int, dist: int)
    requires m(ip) == 0xE9 && Holds(m, ip + 1, LittleEndian(dist, 4))
    requires -0x8000_0000 <= dist < 0x8000_0000
    ensures Hop(m, ip) == Some(ip + 5 + dist)
  {
    hide LittleEndian, Load, Signed, Pow256;
    SignedStored(m, ip + 1, dist);
  }

  lemma ShortHop(m: Memory, ip: int, dist: int)
    requires m(ip) == 0xEB && Holds(m, ip + 1, LittleEndian(dist, 1))
    requires -0x80 <= dist < 0x80
    ensures Hop(m, ip) == Some(ip + 2 + dist)
  {
    LoadStored(m, ip + 1, dist, 1);
    assert Pow256(1) == 256;
  }

  /** The jump through memory finds the slot exactly when the displacement fits 32 bits. */
  lemma SlotReached(m: Memory, ip: int, dist: int)
    requires m(ip) == 0xFF && m(ip + 1) == 0x25 && Holds(m, ip + 2, LittleEndian(dist, 4))
    ensures Hop(m, ip) == Some(Load(m, ip + 6 + Signed(Load(m, ip + 2, 4), 4), 8))
    ensures ip + 6 + Signed(Load(m, ip + 2, 4), 4) == ip + 6 + dist <==> -0x8000_0000 <= dist < 0x8000_0000
  {
    hide LittleEndian, Load, Signed, Pow256;
    SignedStored(m, ip + 2, dist);
  }

  lemma FarHop(m: Memory, ip: int, dist: int, target: int)
    requires m(ip) == 0xFF && m(ip + 1) == 0x25 && Holds(m, ip + 2, LittleEndian(dist, 4))
    requires -0x8000_0000 <= dist < 0x8000_0000 && 0 <= target < 0x1_0000_0000_0000_0000
    requires Holds(m, ip + 6 + dist, LittleEndian(target, 8))
    ensures Hop(m, ip) == Some(target)
  {
    hide LittleEndian, Load, Signed, Pow256;
    SlotReached(m, ip, dist);
    AddressStored(m, ip + 6 + dist, target);
  }

  /** Only bytes of [at, at + size) differ. */
  ghost predicate Outside(before: Memory, after: Memory, at: int, size: nat) {
    forall x :: x < at || at + size <= x ==> after(x) == before(x)
  }

  // ---- the layouts: each arrives at the target and writes nothing but its own bytes

  predicate Fits(dist: int) {
    -0x8000_0000 <= dist < 0x8000_0000
  }

  ghost predicate FarJump(m: Memory, at: int, dist: int) {
    m(at) == 0xFF && m(at + 1) == 0x25 && Holds(m, at + 2, LittleEndian(dist, 4))
  }

  /** JMP rel32 at the entry. */
  ghost predicate EntryNear(m: Memory, f: int, target: int) {
    Fits(target - f - 5) && m(f) == 0xE9 && Holds(m, f + 1, LittleEndian(target - f - 5, 4))
  }

  /** JMP rel8 to a JMP rel32 in the padding. */
  ghost predicate PaddedNear(m: Memory, f: int, target: int) {
    && Fits(target - f) && m(f - 5) == 0xE9 && Holds(m, f - 4, LittleEndian(target - f, 4))
    && m(f) == 0xEB && Holds(m, f + 1, LittleEndian(-7, 1))
  }

  /** JMP through the address right behind it. */
  ghost predicate EntryFar(m: Memory, f: int, target: int) {
    FarJump(m, f, 0) && Holds(m, f + 6, LittleEndian(target, 8))
  }

  /** JMP through a slot elsewhere. */
  ghost predicate SlotFar(m: Memory, f: int, offset: int, target: int) {
    FarJump(m, f, offset - 6) && Fits(offset - 6) && Holds(m, f + offset, LittleEndian(target, 8))
  }

  /** JMP through an address in the padding. */
  ghost predicate BehindFar(m: Memory, f: int, target: int) {
    FarJump(m, f, -14) && Holds(m, f - 8, LittleEndian(target, 8))
  }

  /** JMP rel8 to a JMP through an address, both in the padding. */
  ghost predicate PaddedFar(m: Memory, f: int, target: int) {
    && m(f) == 0xEB && Holds(m, f + 1, LittleEndian(-16, 1))
    && FarJump(m, f - 14, 0) && Holds(m, f - 8, LittleEndian(target, 8))
  }

  /** The bytes around f form one of the six layouts, with the slot at f + offset when there is one. */
  ghost predicate Arrives(m: Memory, f: int, offset: int, target: int) {
    if offset != 0 then SlotFar(m, f, offset, target)
    else
      || EntryNear(m, f, target) || PaddedNear(m, f, target)
      || EntryFar(m, f, target) || BehindFar(m, f, target) || PaddedFar(m, f, target)
  }

  /** Executing any of the layouts transfers control to the target. */
  lemma ArrivesLands(m: Memory, f: int, offset: int, target: int)
    requires Arrives(m, f, offset, target) && 0 <= target < 0x1_0000_0000_0000_0000
    ensures Lands(m, f, target)
  {
    hide LittleEndian, Hop, Load, Signed, Holds;
    if offset != 0 {
      assert f + 6 + (offset - 6) == f + offset;
      FarHop(m, f, offset - 6, target);
    } else if EntryNear(m, f, target) {
      NearHop(m, f, target - f - 5);
    } else if PaddedNear(m, f, target) {
      ShortHop(m, f, -7);
      NearHop(m, f - 5, target - f);
    } else if EntryFar(m, f, target) {
      FarHop(m, f, 0, target);
    } else if BehindFar(m, f, target) {
      FarHop(m, f, -14, target);
    } else {
      ShortHop(m, f, -16);
      FarHop(m, f - 14, 0, target);
    }
  }

  lemma HoldsKept(m: Memory, n: Memory, at: int, bytes: seq<Byte>)
    requires Holds(m, at, bytes) && forall x :: at <= x < at + |bytes| ==> n(x) == m(x)
    ensures Holds(n, at, bytes)
  {
  }

  lemma EntryNearWritten(m: Memory, f: int, dist: int)
    requires Fits(dist - 5)
    ensures var after := Write(Write(m, f, [0xE9]), f + 1, LittleEndian(dist - 5, 4));
      EntryNear(after, f, f + dist) && Outside(m, after, f, 5)
  {
    hide LittleEndian;
  }

  lemma PaddedNearWritten(m: Memory, f: int, dist: int)
    requires Fits(dist)
    ensures var jump := Write(Write(m, f - 5, [0xE9]), f - 4, LittleEndian(dist, 4));
      var after := Write(Write(jump, f, [0xEB]), f + 1, LittleEndian(-7, 1));
      PaddedNear(after, f, f + dist) && Outside(m, after, f - 5, 7)
  {
    hide LittleEndian;
  }

  lemma EntryFarWritten(m: Memory, f: int, target: int)
    ensures var jump := Write(Write(Write(m, f, [0xFF]), f + 1, [0x25]), f + 2, LittleEndian(0, 4));
      var after := Write(jump, f + 6, LittleEndian(target, 8));
      EntryFar(after, f, target) && Outside(m, after, f, 14)
  {
    hide LittleEndian;
  }

  /** The six-byte layout arrives when its slot is out of its own way and within 32 bits of reach. */
  lemma SlotJumpWritten(m: Memory, f: int, offset: int, target: int)
    ensures var after := Write(Write(Write(m, f, [0xFF]), f + 1, [0x25]), f + 2, LittleEndian(offset - 6, 4));
      && Outside(m, after, f, 6) && FarJump(after, f, offset - 6)
      && (Holds(m, f + offset, LittleEndian(target, 8)) && Fits(offset - 6) && (offset + 8 <= 0 || 6 <= offset) ==>
          SlotFar(after, f, offset, target))
  {
    hide LittleEndian;
  }

  lemma BehindFarWritten(m: Memory, f: int, target: int)
    ensures var jump := Write(Write(Write(m, f - 8, LittleEndian(target, 8)), f, [0xFF]), f + 1, [0x25]);
      var after := Write(jump, f + 2, LittleEndian(-14, 4));
      BehindFar(after, f, target) && Outside(m, after, f - 8, 14)
  {
    hide LittleEndian;
  }

  lemma PaddedFarWritten(m: Memory, f: int, target: int)
    ensures var far := Write(Write(Write(m, f - 14, [0xFF]), f - 13, [0x25]), f - 12, LittleEndian(0, 4));
      var jump := Write(far, f - 8, LittleEndian(target, 8));
      var after := Write(Write(jump, f, [0xEB]), f + 1, LittleEndian(-16, 1));
      PaddedFar(after, f, target) && Outside(m, after, f - 14, 16)
  {
    hide LittleEndian;
  }
}
