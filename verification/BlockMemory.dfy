/** Copying and filling memory in blocks: short ranges by two blocks that overlap, long ones by a block
    at the start, aligned blocks in between and one that ends with the range. A pointer is an index
    into its buffer; the numeric value of the destination pointer, which decides the alignment, is a
    parameter. */
module BlockMemory {
  import opened Jumps

  // ---- copying

  /** [d, d + len) of dst now is [s, s + len) of src, and the rest is as before. */
  ghost predicate Copied(before: seq<Byte>, dst: seq<Byte>, d: nat, src: seq<Byte>, s: nat, len: nat)
    requires |before| == |dst| && d + len <= |dst| && s + len <= |src|
  {
    && (forall i :: d <= i < d + len ==> dst[i] == src[i + (s - d)])
    && (forall i :: 0 <= i < d || d + len <= i < |dst| ==> dst[i] == before[i])
  }

  method CopyBlock(dst: array<Byte>, d: nat, src: array<Byte>, s: nat, size: nat)
    requires dst != src && d + size <= dst.Length && s + size <= src.Length
    modifies dst
    ensures Copied(old(dst[..]), dst[..], d, src[..], s, size)
  {
    forall i | d <= i < d + size { dst[i] := src[i + (s - d)]; }
  }

  method CopyLastBlock(dst: array<Byte>, d: nat, src: array<Byte>, s: nat, len: nat, size: nat)
    requires dst != src && d + len <= dst.Length && s + len <= src.Length && size <= len
    modifies dst
    ensures Copied(old(dst[..]), dst[..], d + len - size, src[..], s + len - size, size)
  {
    CopyBlock(dst, d + (len - size), src, s + (len - size), size);
  }

  method CopyOverlapBlock(dst: array<Byte>, d: nat, src: array<Byte>, s: nat, len: nat, size: nat)
    requires dst != src && d + len <= dst.Length && s + len <= src.Length && size <= len <= 2 * size
    modifies dst
    ensures Copied(old(dst[..]), dst[..], d, src[..], s, len)
  {
    CopyBlock(dst, d, src, s, size);
    CopyLastBlock(dst, d, src, s, len, size);
  }

  /** A block store that insists on its alignment. */
  method CopyAlignedBlock(dst: array<Byte>, d: nat, addr: nat, src: array<Byte>, s: nat, size: nat)
    requires size > 0 && addr % size == 0
    requires dst != src && d + size <= dst.Length && s + size <= src.Length
    modifies dst
    ensures Copied(old(dst[..]), dst[..], d, src[..], s, size)
  {
    CopyBlock(dst, d, src, s, size);
  }

  method CopyAlignedBlocks(dst: array<Byte>, d: nat, addr: nat, src: array<Byte>, s: nat, len: nat)
    requires dst != src && d + len <= dst.Length && s + len <= src.Length && len >= 64
    modifies dst
    ensures Copied(old(dst[..]), dst[..], d, src[..], s, len)
  {
    CopyBlock(dst, d, src, s, 32);
    var offLA := addr % 32;
    var limit := len + offLA - 32;
    var off := 32;
    while off < limit
      invariant 32 <= off < limit + 32 && off % 32 == 0
      invariant Copied(old(dst[..]), dst[..], d, src[..], s, off - offLA)
                || (off == 32 && Copied(old(dst[..]), dst[..], d, src[..], s, 32))
    {
      var back := off - offLA;
      CopyAlignedBlock(dst, d + back, addr + back, src, s + back, 32);
      off := off + 32;
    }
    CopyLastBlock(dst, d, src, s, len, 32);
  }

  method MemcpySmall(dst: array<Byte>, d: nat, src: array<Byte>, s: nat, len: nat)
    requires dst != src && d + len <= dst.Length && s + len <= src.Length && 0 < len < 5
    modifies dst
    ensures Copied(old(dst[..]), dst[..], d, src[..], s, len)
  {
    if len == 1 { CopyBlock(dst, d, src, s, 1); }
    else if len == 2 { CopyBlock(dst, d, src, s, 2); }
    else if len == 3 { CopyBlock(dst, d, src, s, 3); }
    else { CopyBlock(dst, d, src, s, 4); }
  }

  method MemcpyDispatch(dst: array<Byte>, d: nat, addr: nat, src: array<Byte>, s: nat, len: nat)
    requires dst != src && d + len <= dst.Length && s + len <= src.Length
    modifies dst
    ensures Copied(old(dst[..]), dst[..], d, src[..], s, len)
  {
    if len == 0 {}
    else if len < 5 { MemcpySmall(dst, d, src, s, len); }
    else if len < 8 { CopyOverlapBlock(dst, d, src, s, len, 4); }
    else if len < 16 { CopyOverlapBlock(dst, d, src, s, len, 8); }
    else if len < 32 { CopyOverlapBlock(dst, d, src, s, len, 16); }
    else if len < 64 { CopyOverlapBlock(dst, d, src, s, len, 32); }
    else if len < 128 { CopyOverlapBlock(dst, d, src, s, len, 64); }
    else { CopyAlignedBlocks(dst, d, addr, src, s, len); }
  }

  lemma CopiedRange(before: seq<Byte>, dst: seq<Byte>, d: nat, src: seq<Byte>, s: nat, len: nat)
    requires |before| == |dst| && d + len <= |dst| && s + len <= |src| && Copied(before, dst, d, src, s, len)
    ensures dst == before[..d] + src[s..s + len] + before[d + len..]
  {
  }

  /** Disjoint buffers: the destination range becomes the source range and nothing else is written. */
  method Memcpy(dst: array<Byte>, d: nat, addr: nat, src: array<Byte>, s: nat, len: nat)
    requires dst != src && d + len <= dst.Length && s + len <= src.Length
    modifies dst
    ensures dst[..] == old(dst[..])[..d] + src[..][s..s + len] + old(dst[..])[d + len..]
  {
    hide Copied;
    MemcpyDispatch(dst, d, addr, src, s, len);
    CopiedRange(old(dst[..]), dst[..], d, src[..], s, len);
  }

  // ---- filling

  /** The scalar pattern of n bytes: all ones, divided by 255, times the value. */
  function Splat(v: Byte, n: nat): int {
    (Pow256(n) - 1) / 255 * v
  }

  lemma {:induction false} AllOnes(n: nat)
    ensures Pow256(n) == 255 * ((Pow256(n) - 1) / 255) + 1
  {
    if n > 0 {
      AllOnes(n - 1);
      var k := 256 * ((Pow256(n - 1) - 1) / 255) + 1;
      assert Pow256(n) == 256 * Pow256(n - 1);
      assert Pow256(n) - 1 == 255 * k;
      Quotient(k);
    }
  }

  lemma Quotient(k: int)
    ensures 255 * k / 255 == k
  {
  }

  lemma SplatNext(v: Byte, n: nat)
    ensures Splat(v, n + 1) == v + 256 * Splat(v, n)
  {
    var q, r := (Pow256(n) - 1) / 255, (Pow256(n + 1) - 1) / 255;
    assert r == 256 * q + 1 by {
      AllOnes(n);
      AllOnes(n + 1);
      assert Pow256(n + 1) == 256 * Pow256(n);
    }
    Distribute(q, v);
  }

  lemma Distribute(q: int, v: int)
    ensures (256 * q + 1) * v == v + 256 * (q * v)
  {
  }

  lemma LittleEndianNext(v: Byte, rest: int, n: nat)
    ensures LittleEndian(v + 256 * rest, n + 1) == [v] + LittleEndian(rest, n)
  {
    assert (v + 256 * rest) % 256 == v && (v + 256 * rest) / 256 == rest;
  }

  /** Every byte of the pattern is the value. */
  lemma {:induction false} SplatBytes(v: Byte, n: nat)
    ensures forall i :: 0 <= i < n ==> LittleEndian(Splat(v, n), n)[i] == v
  {
    hide Splat, LittleEndian;
    if n > 0 {
      SplatNext(v, n - 1);
      SplatBytes(v, n - 1);
      LittleEndianNext(v, Splat(v, n - 1), n - 1);
    }
  }

  /** [d, d + len) holds the value, and the rest is as before. */
  ghost predicate Filled(before: seq<Byte>, dst: seq<Byte>, d: nat, v: Byte, len: nat)
    requires |before| == |dst| && d + len <= |dst|
  {
    && (forall i :: d <= i < d + len ==> dst[i] == v)
    && (forall i :: 0 <= i < d || d + len <= i < |dst| ==> dst[i] == before[i])
  }

  /** Stores a scalar of 1, 2, 4 or 8 bytes. */
  method StoreScalar(dst: array<Byte>, d: nat, value: int, size: nat)
    requires d + size <= dst.Length
    modifies dst
    ensures forall i :: d <= i < d + size ==> dst[i] == LittleEndian(value, size)[i - d]
    ensures forall i :: 0 <= i < d || d + size <= i < dst.Length ==> dst[i] == old(dst[i])
  {
    var bytes := LittleEndian(value, size);
    forall i | d <= i < d + size { dst[i] := bytes[i - d]; }
  }

  /** A block is a scalar, or a vector stored as one pattern after the other. */
  method MemsetBlock(dst: array<Byte>, d: nat, v: Byte, size: nat)
    requires d + size <= dst.Length && (size <= 8 || size % 8 == 0)
    modifies dst
    ensures Filled(old(dst[..]), dst[..], d, v, size)
  {
    hide Splat, LittleEndian;
    if size <= 8 {
      SplatBytes(v, size);
      StoreScalar(dst, d, Splat(v, size), size);
    } else {
      SplatBytes(v, 8);
      var k := 0;
      while k < size
        invariant 0 <= k <= size && k % 8 == 0 && Filled(old(dst[..]), dst[..], d, v, k)
      {
        StoreScalar(dst, d + k, Splat(v, 8), 8);
        k := k + 8;
      }
    }
  }

  method MemsetFirstLastBlock(dst: array<Byte>, d: nat, v: Byte, len: nat, size: nat)
    requires d + len <= dst.Length && (size <= 8 || size % 8 == 0) && size <= len <= 2 * size
    modifies dst
    ensures Filled(old(dst[..]), dst[..], d, v, len)
  {
    MemsetBlock(dst, d, v, size);
    MemsetBlock(dst, d + (len - size), v, size);
  }

  method MemsetLoopAndLast(dst: array<Byte>, d: nat, addr: nat, v: Byte, len: nat)
    requires d + len <= dst.Length && len > 32 && addr % 32 == 0
    modifies dst
    ensures Filled(old(dst[..]), dst[..], d, v, len)
  {
    MemsetBlock(dst, d, v, 32);
    var off := 32;
    while off < len - 32
      invariant 32 <= off < len && off % 32 == 0 && Filled(old(dst[..]), dst[..], d, v, off)
    {
      MemsetBlock(dst, d + off, v, 32);
      off := off + 32;
    }
    MemsetBlock(dst, d + (len - 32), v, 32);
  }

  method MemsetDispatch(dst: array<Byte>, d: nat, addr: nat, v: Byte, len: nat)
    requires d + len <= dst.Length
    modifies dst
    ensures Filled(old(dst[..]), dst[..], d, v, len)
  {
    if len == 0 {}
    else if len == 1 { MemsetBlock(dst, d, v, 1); }
    else if len == 2 { MemsetBlock(dst, d, v, 2); }
    else if len == 3 {
      MemsetBlock(dst, d, v, 2);
      MemsetBlock(dst, d + 2, v, 1);
    }
    else if len == 4 { MemsetBlock(dst, d, v, 4); }
    else if len <= 8 { MemsetFirstLastBlock(dst, d, v, len, 4); }
    else if len <= 16 { MemsetFirstLastBlock(dst, d, v, len, 8); }
    else if len <= 32 { MemsetFirstLastBlock(dst, d, v, len, 16); }
    else if len <= 64 { MemsetFirstLastBlock(dst, d, v, len, 32); }
    else if len <= 128 { MemsetFirstLastBlock(dst, d, v, len, 64); }
    else {
      MemsetBlock(dst, d, v, 32);
      var step := 32 - addr % 32;
      MemsetLoopAndLast(dst, d + step, addr + step, v, len - step);
    }
  }

  lemma FilledRange(before: seq<Byte>, dst: seq<Byte>, d: nat, v: Byte, len: nat)
    requires |before| == |dst| && d + len <= |dst| && Filled(before, dst, d, v, len)
    ensures dst == before[..d] + seq(len, _ => v) + before[d + len..]
  {
  }

  /** Exactly the range is filled. */
  method Memset(dst: array<Byte>, d: nat, addr: nat, v: Byte, len: nat)
    requires d + len <= dst.Length
    modifies dst
    ensures dst[..] == old(dst[..])[..d] + seq(len, _ => v) + old(dst[..])[d + len..]
  {
    hide Filled;
    MemsetDispatch(dst, d, addr, v, len);
    FilledRange(old(dst[..]), dst[..], d, v, len);
  }
}
