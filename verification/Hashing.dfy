/** Three ways to hash a stream of bytes: from contiguous memory, from an iterator through a 64-byte
    buffer, and from a list of arguments of mixed sizes. The mixing itself is left free: a state is
    the record of the blocks that went into it, so equal results here are equal for every mixer. */
module Hashing {

  type Byte = bv8

  datatype State = Created(block: seq<Byte>) | Mixed(state: State, block: seq<Byte>)

  datatype Code = Short(bytes: seq<Byte>) | Final(state: State, length: nat)

  /** The state after all the 64-byte blocks of s. */
  function Blocks(s: seq<Byte>): State
    requires |s| >= 64 && |s| % 64 == 0
  {
    if |s| == 64 then Created(s) else Mixed(Blocks(s[..|s| - 64]), s[|s| - 64..])
  }

  function Whole(s: seq<Byte>): (n: nat)
    ensures n % 64 == 0 && n <= |s| < n + 64
  {
    |s| / 64 * 64
  }

  /** The hash of a stream: its whole blocks, and then its last 64 bytes when some are left over. */
  function HashOf(s: seq<Byte>): Code {
    if |s| <= 64 then Short(s)
    else
      var whole := Whole(s);
      var state := Blocks(s[..whole]);
      Final(if whole == |s| then state else Mixed(state, s[|s| - 64..]), |s|)
  }

  function Concat(items: seq<seq<Byte>>): seq<Byte> {
    if items == [] then [] else Concat(items[..|items| - 1]) + items[|items| - 1]
  }

  lemma ConcatNext(items: seq<seq<Byte>>, i: nat)
    requires i < |items|
    ensures Concat(items[..i + 1]) == Concat(items[..i]) + items[i]
  {
    assert items[..i + 1][..i] == items[..i];
  }

  lemma {:induction false} ConcatHead(items: seq<seq<Byte>>)
    requires items != []
    ensures Concat(items) == items[0] + Concat(items[1..])
  {
    hide Concat;
    var n := |items| - 1;
    ConcatNext(items, n);
    assert items[..n + 1] == items;
    if n == 0 {
      ConcatNone();
      assert items[..0] == [] && items[1..] == [];
    } else {
      var rest := items[1..];
      ConcatHead(items[..n]);
      ConcatNext(rest, n - 1);
      assert rest[..n] == rest && rest[..n - 1] == items[..n][1..];
    }
  }

  lemma ConcatNone()
    ensures Concat([]) == []
  {
  }

  /** However the last block was reached, one more mix with the last 64 bytes finishes the hash. */
  lemma LastBlock(s: seq<Byte>, hashed: nat)
    requires hashed % 64 == 0 && 64 <= hashed < |s| <= hashed + 64
    ensures HashOf(s) == Final(Mixed(Blocks(s[..hashed]), s[|s| - 64..]), |s|)
  {
    if |s| == hashed + 64 {
      assert Whole(s) == |s| && s[..|s|] == s;
    } else {
      assert Whole(s) == hashed;
    }
  }

  lemma FirstBlock(s: seq<Byte>)
    requires |s| == 64
    ensures Blocks(s) == Created(s)
  {
  }

  lemma NextBlock(s: seq<Byte>, hashed: nat)
    requires hashed % 64 == 0 && 64 <= hashed && hashed + 64 <= |s|
    ensures Blocks(s[..hashed + 64]) == Mixed(Blocks(s[..hashed]), s[hashed..hashed + 64])
  {
    var t := s[..hashed + 64];
    assert t[..hashed] == s[..hashed] && t[hashed..] == s[hashed..hashed + 64];
  }

  /** Contiguous memory: the blocks are read where they are. */
  method HashContiguous(s: array<Byte>) returns (code: Code)
    ensures code == HashOf(s[..])
  {
    var length := s.Length;
    if length <= 64 { return Short(s[..]); }
    var alignedEnd := length / 64 * 64;
    var state := Created(s[..64]);
    var begin := 64;
    while begin != alignedEnd
      invariant 64 <= begin <= alignedEnd && begin % 64 == 0
      invariant state == Blocks(s[..][..begin])
      decreases alignedEnd - begin
    {
      NextBlock(s[..], begin);
      state := Mixed(state, s[begin..begin + 64]);
      begin := begin + 64;
    }
    if length % 64 != 0 { state := Mixed(state, s[length - 64..]); }
    assert s[..][..length] == s[..];
    return Final(state, length);
  }

  // ---- the buffer

  /** Copies value[offset..] to the buffer at ptr when it fits, and nothing otherwise. */
  method StoreAndAdvance(buffer: array<Byte>, ptr: nat, value: seq<Byte>, offset: nat) returns (ok: bool, next: nat)
    requires ptr <= buffer.Length && offset <= |value|
    modifies buffer
    ensures ok <==> ptr + |value| - offset <= buffer.Length
    ensures !ok ==> next == ptr && buffer[..] == old(buffer[..])
    ensures ok ==> next == ptr + |value| - offset && buffer[..next] == old(buffer[..ptr]) + value[offset..]
    ensures ok ==> buffer[next..] == old(buffer[next..])
  {
    next := ptr;
    if ptr + |value| - offset > buffer.Length { return false, next; }
    forall k | 0 <= k < |value| - offset { buffer[ptr + k] := value[offset + k]; }
    return true, ptr + |value| - offset;
  }

  method Rotate(buffer: array<Byte>, middle: nat)
    requires middle <= buffer.Length
    modifies buffer
    ensures buffer[..] == old(buffer[middle..] + buffer[..middle])
  {
    var back := buffer.Length - middle;
    forall k | 0 <= k < buffer.Length { buffer[k] := if k < back then buffer[k + middle] else buffer[k - back]; }
  }

  /** The buffer and state after `fed` has gone by: `hashed` bytes are in the state, ptr bytes wait, and
      the buffer read from ptr around to ptr is the last 64 bytes of the stream. */
  ghost predicate Tracks(fed: seq<Byte>, hashed: nat, ptr: nat, buffer: seq<Byte>, state: State) {
    && |buffer| == 64 && ptr <= 64 && hashed % 64 == 0 && |fed| == hashed + ptr
    && (hashed == 0 ==> buffer[..ptr] == fed)
    && (hashed > 0 ==> state == Blocks(fed[..hashed]) && buffer[ptr..] + buffer[..ptr] == fed[|fed| - 64..])
  }

  lemma TracksSize(fed: seq<Byte>, hashed: nat, ptr: nat, buffer: seq<Byte>, state: State)
    requires Tracks(fed, hashed, ptr, buffer, state)
    ensures |buffer| == 64 && ptr <= 64 && |fed| == hashed + ptr
    ensures hashed == 0 ==> HashOf(fed) == Short(buffer[..ptr])
  {
  }

  /** Another piece that fits. */
  lemma TracksMore(fed: seq<Byte>, hashed: nat, ptr: nat, buffer: seq<Byte>, state: State, more: seq<Byte>,
      after: seq<Byte>)
    requires Tracks(fed, hashed, ptr, buffer, state) && |after| == 64 && ptr + |more| <= 64
    requires after[..ptr + |more|] == buffer[..ptr] + more && after[ptr + |more|..] == buffer[ptr + |more|..]
    ensures Tracks(fed + more, hashed, ptr + |more|, after, state)
  {
    if hashed > 0 {
      assert (fed + more)[..hashed] == fed[..hashed];
      var last := fed[|fed| - 64..];
      assert buffer[ptr + |more|..] == last[|more|..64 - ptr];
      assert buffer[..ptr] == last[64 - ptr..];
      assert (fed + more)[|fed + more| - 64..] == last[|more|..] + more;
    }
  }

  /** A full buffer goes into the state, and waiting starts over. */
  lemma TracksFlush(fed: seq<Byte>, hashed: nat, buffer: seq<Byte>, state: State)
    requires Tracks(fed, hashed, 64, buffer, state)
    ensures Tracks(fed, hashed + 64, 0, buffer, if hashed == 0 then Created(buffer) else Mixed(state, buffer))
  {
    hide Blocks;
    assert fed[..hashed + 64] == fed;
    assert buffer[..64] == buffer && buffer[64..] == [] && buffer[..0] == [] && buffer[0..] == buffer;
    if hashed == 0 {
      assert fed[|fed| - 64..] == fed;
      FirstBlock(fed);
    } else {
      NextBlock(fed, hashed);
    }
  }

  lemma TracksEnd(fed: seq<Byte>, hashed: nat, ptr: nat, buffer: seq<Byte>, state: State, rotated: seq<Byte>)
    requires Tracks(fed, hashed, ptr, buffer, state) && hashed > 0 && ptr > 0
    requires rotated == buffer[ptr..] + buffer[..ptr]
    ensures HashOf(fed) == Final(Mixed(state, rotated), hashed + ptr)
  {
    hide Blocks, HashOf;
    LastBlock(fed, hashed);
  }

  /** A round of the buffered form: the rotated buffer is mixed in, and there is more or there is not. */
  lemma RoundDone(fed: seq<Byte>, hashed: nat, ptr: nat, filled: seq<Byte>, rotated: seq<Byte>, state: State,
      more: bool)
    requires Tracks(fed, hashed, ptr, filled, state) && hashed > 0 && ptr > 0
    requires rotated == filled[ptr..] + filled[..ptr] && (more ==> ptr == 64)
    ensures more ==> Tracks(fed, hashed + ptr, 0, rotated, Mixed(state, rotated))
    ensures !more ==> HashOf(fed) == Final(Mixed(state, rotated), hashed + ptr)
  {
    hide HashOf;
    if more {
      assert rotated == filled;
      TracksFlush(fed, hashed, filled, state);
    } else {
      TracksEnd(fed, hashed, ptr, filled, state, rotated);
    }
  }

  // ---- from an iterator

  /** A store of w bytes fails in a buffer filled w at a time. */
  lemma FullOrSkewed(w: nat, k: nat, ptr: nat)
    requires ptr == k * w && ptr <= 64 < ptr + w
    ensures ptr == 64 <==> 64 % w == 0
  {
    if 64 % w == 0 {
      var m := 64 / w;
      assert m * w == 64;
      assert k < m ==> (k + 1) * w <= m * w;
    } else {
      assert ptr == 64 ==> (k * w) % w == 0 by { MultipleMod(k, w); }
    }
  }

  lemma MultipleMod(k: nat, w: nat)
    requires w > 0
    ensures (k * w) % w == 0
  {
    var r, q := (k * w) % w, (k * w) / w;
    assert r == (k - q) * w;
    assert k - q >= 1 ==> (k - q) * w >= w;
    assert k - q <= -1 ==> (k - q) * w <= 0 - w;
  }

  /** Stores items from `from` on until one does not fit. */
  method Fill(buffer: array<Byte>, items: seq<seq<Byte>>, from: nat, w: nat, ghost fed: seq<Byte>, ghost hashed: nat,
      ghost state: State)
    returns (i: nat, ptr: nat, ghost now: seq<Byte>)
    requires buffer.Length == 64 && 0 < w <= 64 && from <= |items| && forall item :: item in items ==> |item| == w
    requires fed == Concat(items[..from])
    modifies buffer
    ensures from <= i <= |items| && ptr <= 64 && (from < |items| ==> ptr >= w)
    ensures now == Concat(items[..i]) && |now| == |fed| + ptr
    ensures i < |items| ==> from < i && 64 < ptr + w && (ptr == 64 <==> 64 % w == 0)
    ensures Tracks(fed, hashed, 0, old(buffer[..]), state) ==> Tracks(now, hashed, ptr, buffer[..], state)
  {
    hide Tracks, Concat;
    i, ptr, now := from, 0, fed;
    ghost var k: nat := 0;
    while i < |items|
      invariant from <= i <= |items| && ptr <= 64 && ptr == k * w && (i == from ==> ptr == 0) && (i > from ==> ptr >= w)
      invariant now == Concat(items[..i]) && |now| == |fed| + ptr
      invariant Tracks(fed, hashed, 0, old(buffer[..]), state) ==> Tracks(now, hashed, ptr, buffer[..], state)
    {
      ghost var b, p := buffer[..], ptr;
      var ok;
      assert items[i] in items;
      ok, ptr := StoreAndAdvance(buffer, ptr, items[i], 0);
      if !ok {
        FullOrSkewed(w, k, ptr);
        break;
      }
      ConcatNext(items, i);
      if Tracks(fed, hashed, 0, old(buffer[..]), state) { TracksMore(now, hashed, p, b, state, items[i], buffer[..]); }
      i, k, now := i + 1, k + 1, now + items[i];
    }
  }

  /** The buffered form agrees with the contiguous one exactly when the items fill the buffer evenly,
      or never fill it. */
  method HashBuffered(items: seq<seq<Byte>>, w: nat) returns (code: Code)
    requires 0 < w <= 64 && forall item :: item in items ==> |item| == w
    ensures code == HashOf(Concat(items)) <==> 64 % w == 0 || |Concat(items)| <= 64
  {
    hide Tracks, Concat, Blocks, HashOf;
    var buffer := new Byte[64];
    ghost var fed: seq<Byte>;
    NothingYet(buffer[..]);
    var i, ptr;
    assert items[..|items|] == items && items[..0] == [];
    i, ptr, fed := Fill(buffer, items, 0, w, [], 0, Created([]));
    TracksSize(fed, 0, ptr, buffer[..], Created([]));
    if i == |items| { return Short(buffer[..ptr]); }
    ghost var skew := 64 - ptr;
    var state := Created(buffer[..]);
    var length := 64;
    if skew == 0 { TracksFlush(fed, 0, buffer[..], Created([])); }
    while i < |items|
      invariant i <= |items| && fed == Concat(items[..i]) && |fed| + (if i < |items| then w else 0) > 64 &&
        length == |fed| + skew
      invariant skew == 0 && i < |items| ==> Tracks(fed, length, 0, buffer[..], state)
      invariant skew == 0 && i == |items| ==> HashOf(fed) == Final(state, length)
      decreases |items| - i
    {
      i, ptr, fed := Fill(buffer, items, i, w, fed, length, state);
      ghost var filled := buffer[..];
      Rotate(buffer, ptr);
      if skew == 0 { RoundDone(fed, length, ptr, filled, buffer[..], state, i < |items|); }
      state := Mixed(state, buffer[..]);
      length := length + ptr;
    }
    CodeLength(fed);
    return Final(state, length);
  }

  lemma NothingYet(buffer: seq<Byte>)
    requires |buffer| == 64
    ensures Concat([]) == [] && Tracks([], 0, 0, buffer, Created([]))
  {
  }

  /** A long stream's code carries its length. */
  lemma CodeLength(s: seq<Byte>)
    ensures HashOf(s).Final? <==> |s| > 64
    ensures |s| > 64 ==> HashOf(s).length == |s|
  {
  }

  // ---- from a list of arguments

  class CombineHelper {
    const buffer: array<Byte>
    var state: State

    constructor ()
      ensures buffer.Length == 64 && fresh(buffer)
    {
      buffer := new Byte[64](_ => 0);
      state := Created([]);
    }

    /** The partial store that fills the buffer. */
    method FillEnd(ptr: nat, data: seq<Byte>)
      requires buffer.Length == 64 && ptr <= 64 && 64 - ptr <= |data|
      modifies buffer
      ensures buffer[..64] == old(buffer[..ptr]) + data[..64 - ptr] && buffer[64..] == old(buffer[64..])
    {
      forall k | 0 <= k < 64 - ptr { buffer[ptr + k] := data[k]; }
    }

    /** Buffers one value; a value that straddles the end of the buffer is stored in two parts. */
    method CombineData(length: nat, ptr: nat, data: seq<Byte>, ghost fed: seq<Byte>) returns (hashed: nat, next: nat)
      requires buffer.Length == 64 && 0 < |data| <= 64
      requires Tracks(fed, length, ptr, buffer[..], state) && (length > 0 ==> ptr > 0)
      modifies this, buffer
      ensures Tracks(fed + data, hashed, next, buffer[..], state) && (hashed > 0 ==> next > 0)
    {
      hide Tracks, HashOf, Blocks;
      ghost var b := buffer[..];
      var ok;
      TracksSize(fed, length, ptr, b, state);
      ok, next := StoreAndAdvance(buffer, ptr, data, 0);
      hashed := length;
      if ok {
        TracksMore(fed, length, ptr, b, state, data, buffer[..]);
      } else {
        var part := 64 - ptr;
        FillEnd(ptr, data);
        ghost var full := buffer[..];
        TracksMore(fed, length, ptr, b, state, data[..part], full);
        TracksFlush(fed + data[..part], length, full, state);
        state := if length == 0 then Created(buffer[..]) else Mixed(state, buffer[..]);
        hashed := length + 64;
        ok, next := StoreAndAdvance(buffer, 0, data, part);
        TracksMore(fed + data[..part], hashed, 0, full, state, data[part..], buffer[..]);
        assert fed + data[..part] + data[part..] == fed + data;
      }
    }

    /** One argument after the other, then the rest of the buffer. */
    method Combine(length: nat, ptr: nat, args: seq<seq<Byte>>, ghost fed: seq<Byte>) returns (code: Code)
      requires buffer.Length == 64 && forall arg :: arg in args ==> 0 < |arg| <= 64
      requires Tracks(fed, length, ptr, buffer[..], state) && (length > 0 ==> ptr > 0)
      modifies this, buffer
      ensures code == HashOf(fed + Concat(args))
      decreases |args|
    {
      hide Tracks, HashOf;
      TracksSize(fed, length, ptr, buffer[..], state);
      if args == [] {
        assert fed + Concat([]) == fed;
        if length == 0 { return Short(buffer[..ptr]); }
        ghost var b := buffer[..];
        Rotate(buffer, ptr);
        state := Mixed(state, buffer[..]);
        TracksEnd(fed, length, ptr, b, old(state), buffer[..]);
        return Final(state, length + ptr);
      }
      var hashed, next := CombineData(length, ptr, args[0], fed);
      code := Combine(hashed, next, args[1..], fed + args[0]);
      ConcatHead(args);
      assert fed + args[0] + Concat(args[1..]) == fed + Concat(args);
    }
  }

  method HashCombine(args: seq<seq<Byte>>) returns (code: Code)
    requires forall arg :: arg in args ==> 0 < |arg| <= 64
    ensures code == HashOf(Concat(args))
  {
    var helper := new CombineHelper();
    assert helper.buffer[..0] == [];
    code := helper.Combine(0, 0, args, []);
    assert [] + Concat(args) == Concat(args);
  }

  /** However a stream is cut, into equal items or into arguments of any sizes, its hash is the same. */
  method AllFormsAgree(s: array<Byte>, items: seq<seq<Byte>>, w: nat, args: seq<seq<Byte>>)
    returns (contiguous: Code, buffered: Code, combined: Code)
    requires 0 < w <= 64 && forall item :: item in items ==> |item| == w
    requires forall arg :: arg in args ==> 0 < |arg| <= 64
    requires Concat(items) == s[..] && Concat(args) == s[..]
    ensures contiguous == combined
    ensures buffered == contiguous <==> 64 % w == 0 || s.Length <= 64
  {
    contiguous := HashContiguous(s);
    buffered := HashBuffered(items, w);
    combined := HashCombine(args);
  }
}
