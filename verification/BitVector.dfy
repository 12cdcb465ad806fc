/** A vector of bits packed into machine words and changed a word at a time. */
module BitVectors {
  import opened Words

  class BitVector {
    var bits: seq<Word>
    var size: nat

    /** The words are exactly enough and their unused high bits are zero. */
    ghost predicate Valid()
      reads this
    {
      Canonical(bits, size)
    }

    ghost function Contents(): seq<bool>
      reads this
    {
      View(bits, size)
    }

    constructor (s: nat, t: bool)
      ensures Valid() && Contents() == seq(s, _ => t)
    {
      bits := seq(WordsFor(s), _ => if t then Ones() else Zeros());
      size := s;
      new;
      if t { ClearUnusedBits(); }
    }

    // ---- the words

    method SetUnusedBits(t: bool)
      requires |bits| == WordsFor(size)
      modifies this`bits
      ensures Overwritten(old(bits), bits, size, 64 * |bits|, t)
    {
      hide Or, And, Not, Shl, Ones, Get, Overwritten;
      var extra := size % 64;
      WordOf(size / 64 * 64, size);
      NothingOverwritten(bits, 64 * |bits|, t);
      if extra != 0 {
        var last := |bits| - 1;
        var mask := Shl(Ones(), extra);
        var w := if t then Or(bits[last], mask) else And(bits[last], Not(mask));
        PartOfWord(bits, last, w, extra, 64, t);
        bits := bits[last := w];
      }
    }

    method ClearUnusedBits()
      requires |bits| == WordsFor(size)
      modifies this`bits
      ensures Valid() && Overwritten(old(bits), bits, size, 64 * |bits|, false) && MovedUp(old(bits), bits, size, 0)
    {
      SetUnusedBits(false);
    }

    method Resize(n: nat, t: bool)
      requires Valid()
      modifies this
      ensures Valid() && size == n
      ensures Contents() == if n <= old(size) then old(Contents())[..n]
        else old(Contents()) + seq(n - old(size), _ => t)
    {
      SetUnusedBits(t);
      size := n;
      var words := WordsFor(n);
      ghost var before := bits;
      if words <= |bits| { bits := bits[..words]; }
      else { bits := bits + seq(words - |bits|, _ => if t then Ones() else Zeros()); }
      WordsResized(before, bits, words, t);
      ClearUnusedBits();
    }

    method Set(idx: nat)
      requires Valid() && idx < size
      modifies this`bits
      ensures Valid() && Contents() == old(Contents())[idx := true]
    {
      var j := idx / 64;
      var w := Or(bits[j], Shl(One(), idx % 64));
      PartOfWord(bits, j, w, idx % 64, idx % 64 + 1, true);
      bits := bits[j := w];
    }

    method Reset(idx: nat)
      requires Valid() && idx < size
      modifies this`bits
      ensures Valid() && Contents() == old(Contents())[idx := false]
    {
      var j := idx / 64;
      var w := And(bits[j], Not(Shl(One(), idx % 64)));
      PartOfWord(bits, j, w, idx % 64, idx % 64 + 1, false);
      bits := bits[j := w];
    }

    method PushBack(val: bool)
      requires Valid()
      modifies this
      ensures Valid() && Contents() == old(Contents()) + [val]
    {
      var oldSize := size;
      if oldSize + 1 > 64 * |bits| {
        Resize(oldSize + 1, false);
      } else {
        size := oldSize + 1;
      }
      if val { Set(oldSize); }
    }

    method PopBack()
      requires Valid() && size > 0
      modifies this
      ensures Valid() && Contents() == old(Contents())[..old(size) - 1]
    {
      Resize(size - 1, false);
    }

    method Test(idx: nat) returns (b: bool)
      requires Valid() && idx < size
      ensures b == Contents()[idx]
    {
      b := And(bits[idx / 64], Shl(One(), idx % 64)) != Zeros();
      if !Contents()[idx] { assert And(bits[idx / 64], Shl(One(), idx % 64)) == Zeros(); }
      else { assert And(bits[idx / 64], Shl(One(), idx % 64))[idx % 64]; }
    }

    /** The whole words of a range whose first word has been overwritten, and what is left of its last. */
    method OverwriteRest(ghost b0: seq<Word>, from: nat, to: nat, t: bool)
      requires from / 64 < to / 64 && to <= 64 * |bits| && |bits| == |b0|
      requires Overwritten(b0, bits, from, from / 64 * 64 + 64, t)
      modifies this`bits
      ensures |bits| == |b0| && Overwritten(b0, bits, from, to, t)
    {
      hide Overwritten, Get, Blend, RangeMask, Ones, Zeros;
      var i := (from + 63) / 64 * 64;
      ghost var done := from / 64 * 64 + 64;
      while i + 64 <= to
        invariant i % 64 == 0 && from <= i <= done <= to && (i < done ==> i + 64 <= to)
        invariant done == i || done == i + 64
        invariant |bits| == |b0| && Overwritten(b0, bits, from, done, t)
      {
        var w := if t then Ones() else Zeros();
        OverwrittenNext(b0, bits, w, from, done, i, 64, t);
        bits := bits[i / 64 := w];
        i := i + 64;
        done := i;
      }
      if i < to {
        WordOf(i, to);
        var j := i / 64;
        var w := Blend(bits[j], RangeMask(0, to % 64), t);
        OverwrittenNext(b0, bits, w, from, i, i, to % 64, t);
        bits := bits[j := w];
      }
    }

    /** Gives the bits of [from, to) one value: part of a word, whole words, part of a word. */
    method Overwrite(from: nat, to: nat, t: bool)
      requires Valid() && from <= to <= size
      modifies this`bits
      ensures Valid()
      ensures Contents() == old(Contents()[..from]) + seq(to - from, _ => t) + old(Contents()[to..])
    {
      hide WordsFor, Overwritten, Canonical, View, Get, Blend, Shl, RangeMask, Ones, Zeros;
      ghost var b0 := bits;
      CanonicalSize(bits, size);
      if from == to { assert Contents() == Contents()[..from] + [] + Contents()[to..]; return; }
      var j := from / 64;
      WordOf(64 * j, from);
      if j == to / 64 {
        var w := Blend(bits[j], RangeMask(from % 64, to % 64), t);
        PartOfWord(bits, j, w, from % 64, to % 64, t);
        bits := bits[j := w];
        OverwrittenView(b0, bits, size, from, to, t);
        return;
      }
      var w := Blend(bits[j], Shl(Ones(), from % 64), t);
      PartOfWord(bits, j, w, from % 64, 64, t);
      bits := bits[j := w];
      OverwriteRest(b0, from, to, t);
      OverwrittenView(b0, bits, size, from, to, t);
    }

    method SetRange(from: nat, to: nat)
      requires Valid() && from <= to <= size
      modifies this`bits
      ensures Valid()
      ensures Contents() == old(Contents()[..from]) + seq(to - from, _ => true) + old(Contents()[to..])
    {
      Overwrite(from, to, true);
    }

    method ResetRange(from: nat, to: nat)
      requires Valid() && from <= to <= size
      modifies this`bits
      ensures Valid()
      ensures Contents() == old(Contents()[..from]) + seq(to - from, _ => false) + old(Contents()[to..])
    {
      Overwrite(from, to, false);
    }

    // ---- finding

    /** The first bit of [begin, end) that is set, or unset; -1 when there is none. */
    method FindFirstIn(begin: nat, end: nat, sought: bool) returns (r: int)
      requires Valid() && begin <= end <= size
      ensures r == -1 ==> Nothing(bits, begin, end, sought)
      ensures r != -1 ==> begin <= r < end && Contents()[r] == sought && Nothing(bits, begin, r, sought)
    {
      hide Get, Window, And, Or, Not, TrailingOnesMask, TrailingZerosMask, TrailingZeros, LeadingZeros;
      if begin == end { return -1; }
      var firstWord, lastWord := begin / 64, (end - 1) / 64;
      var i := firstWord;
      while i <= lastWord
        invariant firstWord <= i <= lastWord + 1
        invariant forall k: nat :: begin <= k < end && k < 64 * i ==> Get(bits, k) != sought
      {
        var copy := bits[i];
        if !sought { copy := Not(copy); }
        if i == firstWord { copy := And(copy, TrailingZerosMask(begin % 64)); }
        if i == lastWord { copy := And(copy, TrailingOnesMask((end - 1) % 64 + 1)); }
        WindowMade(bits, i, begin, end, sought, copy);
        WindowFirst(bits, i, begin, end, sought, copy);
        if copy != Zeros() { return 64 * i + TrailingZeros(copy); }
        i := i + 1;
      }
      return -1;
    }

    /** The last set bit of [begin, end). */
    method FindLastIn(begin: nat, end: nat) returns (r: int)
      requires Valid() && begin <= end <= size
      ensures r == -1 ==> Nothing(bits, begin, end, true)
      ensures r != -1 ==> begin <= r < end && Contents()[r] && Nothing(bits, r + 1, end, true)
    {
      hide Get, Window, And, Or, Not, TrailingOnesMask, TrailingZerosMask, TrailingZeros, LeadingZeros;
      if begin == end { return -1; }
      var firstWord, lastWord := begin / 64, (end - 1) / 64;
      var i := lastWord + 1;
      while i >= firstWord + 1
        invariant firstWord <= i <= lastWord + 1
        invariant forall k: nat :: begin <= k < end && 64 * i <= k ==> Get(bits, k) != true
      {
        var current := i - 1;
        var copy := bits[current];
        if current == lastWord { copy := And(copy, TrailingOnesMask((end - 1) % 64 + 1)); }
        if current == firstWord { copy := And(copy, TrailingZerosMask(begin % 64)); }
        WindowMade(bits, current, begin, end, true, copy);
        WindowLast(bits, current, begin, end, true, copy);
        if copy != Zeros() { return (current + 1) * 64 - LeadingZeros(copy) - 1; }
        i := i - 1;
      }
      return -1;
    }

    /** The last unset bit of [begin, end), by masks that set what is outside. */
    method FindLastUnsetIn(begin: nat, end: nat) returns (r: int)
      requires Valid() && begin <= end <= size
      ensures r == -1 ==> Nothing(bits, begin, end, false)
      ensures r != -1 ==> begin <= r < end && !Contents()[r] && Nothing(bits, r + 1, end, false)
    {
      hide Get, Window, And, Or, Not, TrailingOnesMask, TrailingZerosMask, TrailingZeros, LeadingZeros;
      if begin == end { return -1; }
      var firstWord, lastWord := begin / 64, (end - 1) / 64;
      var i := lastWord + 1;
      while i >= firstWord + 1
        invariant firstWord <= i <= lastWord + 1
        invariant forall k: nat :: begin <= k < end && 64 * i <= k ==> Get(bits, k) != false
      {
        var current := i - 1;
        var copy := bits[current];
        if current == lastWord { copy := Or(copy, TrailingZerosMask((end - 1) % 64 + 1)); }
        if current == firstWord { copy := Or(copy, TrailingOnesMask(begin % 64)); }
        WindowMade(bits, current, begin, end, false, Not(copy));
        WindowLast(bits, current, begin, end, false, Not(copy));
        NotOnes(copy);
        if copy != Ones() {
          var result := (current + 1) * 64 - LeadingOnes(copy) - 1;
          return if result < size then result else -1;
        }
        i := i - 1;
      }
      return -1;
    }

    /** Visits the set bits one after the other. */
    method SetBits() returns (list: seq<nat>)
      requires Valid()
      ensures list == Indices(Contents())
    {
      hide Get;
      list := [];
      var current := FindFirstIn(0, size, true);
      ghost var seen := 0;
      while current != -1
        invariant -1 <= current < size && 0 <= seen <= size && list == Indices(Contents()[..seen])
        invariant current == -1 ==> Nothing(bits, seen, size, true)
        invariant current != -1 ==> seen <= current && Contents()[current] && Nothing(bits, seen, current, true)
        decreases size - seen
      {
        IndicesGap(Contents(), seen, current);
        IndicesNext(Contents(), current);
        list := list + [current];
        seen := current + 1;
        current := FindFirstIn(current + 1, size, true);
      }
      IndicesGap(Contents(), seen, size);
      assert Contents()[..size] == Contents();
    }

    method Count() returns (n: nat)
      requires Valid()
      ensures n == PopCount(Contents())
    {
      n := 0;
      var i := 0;
      while i < |bits|
        invariant 0 <= i <= |bits| && n == PopCount(Flat(bits[..i]))
      {
        assert bits[..i + 1][..i] == bits[..i];
        PopCountConcat(Flat(bits[..i]), bits[i]);
        n := n + PopCount(bits[i]);
        i := i + 1;
      }
      assert bits[..i] == bits;
      WordsCounted(bits, size);
    }

    // ---- comparing and combining

    method Equals(rhs: BitVector) returns (equal: bool)
      requires Valid() && rhs.Valid()
      ensures equal <==> Contents() == rhs.Contents()
    {
      if size != rhs.size { return false; }
      SameWordsSameBits(bits, rhs.bits, size);
      return bits == rhs.bits;
    }

    method AndWith(rhs: BitVector)
      requires Valid() && rhs.Valid()
      modifies this`bits
      ensures Valid() && size == old(size)
      ensures forall k :: 0 <= k < size ==> Contents()[k] == (old(Contents())[k] && At(old(rhs.Contents()), k))
    {
      hide Get;
      ghost var a, b := bits, rhs.bits;
      var common := if |bits| < |rhs.bits| then |bits| else |rhs.bits|;
      var i := 0;
      while i != common
        invariant 0 <= i <= common && |bits| == |a| && |rhs.bits| == |b|
        invariant forall j :: 0 <= j < i ==> bits[j] == And(a[j], b[j])
        invariant forall j :: i <= j < |a| ==> bits[j] == a[j]
        invariant forall j :: i <= j < |b| ==> rhs.bits[j] == b[j]
        decreases common - i
      {
        bits := bits[i := And(bits[i], rhs.bits[i])];
        i := i + 1;
      }
      while i != |bits|
        invariant common <= i <= |bits| == |a|
        invariant forall j :: 0 <= j < common ==> bits[j] == And(a[j], b[j])
        invariant forall j :: common <= j < i ==> bits[j] == Zeros()
        decreases |bits| - i
      {
        bits := bits[i := Zeros()];
        i := i + 1;
      }
      Wordwise(a, b, bits, (x, y) => x && y);
      CombinedView(a, old(size), b, old(rhs.size), bits, (x, y) => x && y);
    }

    method OrWith(rhs: BitVector)
      requires Valid() && rhs.Valid()
      modifies this
      ensures Valid() && size == if old(size) < old(rhs.size) then old(rhs.size) else old(size)
      ensures forall k :: 0 <= k < size ==> Contents()[k] == (At(old(Contents()), k) || At(old(rhs.Contents()), k))
    {
      hide Get;
      ghost var b, n := rhs.bits, rhs.size;
      if size < rhs.size { Resize(rhs.size, false); }
      ghost var a, m := bits, size;
      assert Canonical(a, m);
      var i, e := 0, |rhs.bits|;
      while i != e
        invariant size == m && 0 <= i <= e == |b| <= |a| == |bits|
        invariant forall j :: 0 <= j < i ==> bits[j] == Or(a[j], b[j])
        invariant forall j :: i <= j < |a| ==> bits[j] == a[j]
        invariant |rhs.bits| == |b| && forall j :: i <= j < |b| ==> rhs.bits[j] == b[j]
        decreases e - i
      {
        bits := bits[i := Or(bits[i], rhs.bits[i])];
        i := i + 1;
      }
      Wordwise(a, b, bits, (x, y) => x || y);
      CombinedView(a, m, b, n, bits, (x, y) => x || y);
    }

    method XorWith(rhs: BitVector)
      requires Valid() && rhs.Valid()
      modifies this
      ensures Valid() && size == if old(size) < old(rhs.size) then old(rhs.size) else old(size)
      ensures forall k :: 0 <= k < size ==> Contents()[k] == (At(old(Contents()), k) != At(old(rhs.Contents()), k))
    {
      hide Get;
      ghost var b, n := rhs.bits, rhs.size;
      if size < rhs.size { Resize(rhs.size, false); }
      ghost var a, m := bits, size;
      assert Canonical(a, m);
      var i, e := 0, |rhs.bits|;
      while i != e
        invariant size == m && 0 <= i <= e == |b| <= |a| == |bits|
        invariant forall j :: 0 <= j < i ==> bits[j] == Xor(a[j], b[j])
        invariant forall j :: i <= j < |a| ==> bits[j] == a[j]
        invariant |rhs.bits| == |b| && forall j :: i <= j < |b| ==> rhs.bits[j] == b[j]
        decreases e - i
      {
        bits := bits[i := Xor(bits[i], rhs.bits[i])];
        i := i + 1;
      }
      Wordwise(a, b, bits, (x, y) => x != y);
      CombinedView(a, m, b, n, bits, (x, y) => x != y);
    }

    /** Clears the bits that are set in rhs. */
    method ResetAll(rhs: BitVector)
      requires Valid() && rhs.Valid()
      modifies this`bits
      ensures Valid() && size == old(size)
      ensures forall k :: 0 <= k < size ==> Contents()[k] == (old(Contents())[k] && !At(old(rhs.Contents()), k))
    {
      hide Get;
      ghost var a, b := bits, rhs.bits;
      var common := if |bits| < |rhs.bits| then |bits| else |rhs.bits|;
      var i := 0;
      while i != common
        invariant 0 <= i <= common && |bits| == |a| && |rhs.bits| == |b|
        invariant forall j :: 0 <= j < i ==> bits[j] == And(a[j], Not(b[j]))
        invariant forall j :: i <= j < |a| ==> bits[j] == a[j]
        invariant forall j :: i <= j < |b| ==> rhs.bits[j] == b[j]
        decreases common - i
      {
        bits := bits[i := And(bits[i], Not(rhs.bits[i]))];
        i := i + 1;
      }
      Wordwise(a, b, bits, (x, y) => x && !y);
      CombinedView(a, old(size), b, old(rhs.size), bits, (x, y) => x && !y);
    }

    method Flip()
      requires Valid()
      modifies this`bits
      ensures Valid() && size == old(size)
      ensures forall k :: 0 <= k < size ==> Contents()[k] == !old(Contents())[k]
    {
      hide Get;
      ghost var a := bits;
      var i := 0;
      while i < |bits|
        invariant 0 <= i <= |bits| == |a|
        invariant forall j :: 0 <= j < i ==> bits[j] == Not(a[j])
        invariant forall j :: i <= j < |a| ==> bits[j] == a[j]
      {
        bits := bits[i := Not(bits[i])];
        i := i + 1;
      }
      Wordwise(a, [], bits, (x, _) => !x);
      ClearUnusedBits();
    }

    // ---- shifting

    method WordShr(count: nat)
      requires count <= |bits|
      modifies this`bits
      ensures |bits| == |old(bits)| && MovedDown(old(bits), bits, 64 * count)
    {
      hide MovedDown, Get;
      NotMoved(bits, size);
      if count == 0 { return; }
      var moved := bits[count..] + seq(count, _ => Zeros());
      WordsDown(bits, moved, count);
      bits := moved;
    }

    method WordShl(count: nat)
      requires count <= |bits| && Valid()
      modifies this`bits
      ensures Valid() && |bits| == |old(bits)| && MovedUp(old(bits), bits, size, 64 * count)
    {
      hide MovedUp, Get, Overwritten;
      ghost var a := bits;
      NotMoved(bits, size);
      if count == 0 { return; }
      var moved := seq(count, _ => Zeros()) + bits[..|bits| - count];
      WordsUp(bits, moved, count);
      MovedUpLess(bits, moved, 64 * |bits|, size, 64 * count);
      bits := moved;
      ClearUnusedBits();
      MovedUpTwice(a, moved, bits, size, 64 * count, 0);
    }

    /** Every word takes the low bits of the next one, front to back. */
    method ShrBits(d: nat)
      requires 0 < d < 64 && |bits| > 0
      modifies this`bits
      ensures |bits| == |old(bits)| && MovedDown(old(bits), bits, d)
    {
      hide Get, Or, And, Shl, Shr, JoinDown, MovedDown, TrailingOnesMask;
      ghost var a := bits;
      var numWords := |bits|;
      var i := 0;
      while i < numWords - 1
        invariant 0 <= i <= numWords - 1 && |bits| == numWords == |a|
        invariant forall j {:trigger bits[j]} :: 0 <= j < i ==> bits[j] == JoinDown(a[j], a[j + 1], d)
        invariant forall j {:trigger bits[j]} :: i <= j < numWords ==> bits[j] == a[j]
      {
        JoinsDown(bits[i], bits[i + 1], d);
        bits := bits[i := Or(Shr(bits[i], d), Shl(And(bits[i + 1], TrailingOnesMask(d)), 64 - d))];
        i := i + 1;
      }
      bits := bits[numWords - 1 := Shr(bits[numWords - 1], d)];
      BitsDown(a, bits, d);
    }

    /** Every word takes the high bits of the one before, back to front. */
    method ShlBits(d: nat)
      requires 0 < d < 64 && |bits| > 0
      modifies this`bits
      ensures |bits| == |old(bits)| && MovedUp(old(bits), bits, 64 * |bits|, d)
    {
      hide Get, Or, And, Shl, Shr, JoinUp, MovedUp, LeadingOnesMask;
      ghost var a := bits;
      var numWords := |bits|;
      var i := numWords - 1;
      while i > 0
        invariant 0 <= i <= numWords - 1 && |bits| == numWords == |a|
        invariant forall j {:trigger bits[j]} :: i < j < numWords ==> bits[j] == JoinUp(a[j - 1], a[j], d)
        invariant forall j {:trigger bits[j]} :: 0 <= j <= i ==> bits[j] == a[j]
      {
        JoinsUp(bits[i - 1], bits[i], d);
        bits := bits[i := Or(Shl(bits[i], d), Shr(And(bits[i - 1], LeadingOnesMask(d)), 64 - d))];
        i := i - 1;
      }
      bits := bits[0 := Shl(bits[0], d)];
      BitsUp(a, bits, d);
    }

    method ShiftRight(n: nat)
      requires Valid() && n <= size
      modifies this`bits
      ensures Valid() && size == old(size)
      ensures Contents() == old(Contents()[n..]) + seq(n, _ => false)
    {
      hide Get, View, MovedDown;
      ghost var a0 := bits;
      NotMoved(bits, size);
      if size == 0 || n == 0 { DownView(a0, bits, size, n); return; }
      WordShr(n / 64);
      ghost var a := bits;
      var d := n % 64;
      if d == 0 { DownView(a0, bits, size, n); return; }
      ShrBits(d);
      MovedDownTwice(a0, a, bits, 64 * (n / 64), d);
      DownView(a0, bits, size, n);
    }

    method ShiftLeft(n: nat)
      requires Valid() && n <= size
      modifies this`bits
      ensures Valid() && size == old(size)
      ensures Contents() == seq(n, _ => false) + old(Contents()[..size - n])
    {
      hide Get, View, MovedUp, Overwritten;
      ghost var a0 := bits;
      NotMoved(bits, size);
      if size == 0 || n == 0 { UpView(a0, bits, size, n); return; }
      WordShl(n / 64);
      ghost var a := bits;
      var d := n % 64;
      if d == 0 { UpView(a0, bits, size, n); return; }
      ShlBits(d);
      ghost var b := bits;
      MovedUpLess(a, b, 64 * |a|, size, d);
      MovedUpTwice(a0, a, b, size, 64 * (n / 64), d);
      ClearUnusedBits();
      MovedUpTwice(a0, b, bits, size, n, 0);
      UpView(a0, bits, size, n);
    }

    // ---- masks

    /** Adds or removes the bits a portable mask names, or does not name; bits past the mask stay. */
    method ApplyMask(mask: seq<Half>, maskWords: nat, add: bool, invert: bool)
      requires Valid() && (|mask| >= maskWords || |mask| >= (size + 31) / 32)
      modifies this`bits
      ensures Valid() && size == old(size)
      ensures forall k :: 0 <= k < size ==> Contents()[k] == Masked(old(Contents())[k], mask, maskWords, k, add, invert)
    {
      hide Get, Masked;
      var words := if maskWords < (size + 31) / 32 then maskWords else (size + 31) / 32;
      ghost var a := bits;
      NoneMasked(bits, mask, add, invert);
      var i, p := 0, 0;
      while words - p >= 2
        invariant p == 2 * i <= words && |bits| == |a|
        invariant forall k: nat :: k < 64 * |a| ==> Get(bits, k) == Masked(Get(a, k), mask, p, k, add, invert)
      {
        var b := 0;
        while b != 64
          invariant (b == 0 || b == 32 || b == 64) && 32 * p == 64 * i + b && p <= words && |bits| == |a|
          invariant forall k: nat :: k < 64 * |a| ==> Get(bits, k) == Masked(Get(a, k), mask, p, k, add, invert)
          decreases 64 - b
        {
          ghost var mid := bits;
          var m := if invert then InvertHalf(mask[p]) else mask[p];
          bits := bits[i := if add then Or(bits[i], Shl(Widen(m), b)) else And(bits[i], Not(Shl(Widen(m), b)))];
          HalfMasked(a, mid, bits, i, b, p, mask, add, invert);
          p, b := p + 1, b + 32;
        }
        i := i + 1;
      }
      var b := 0;
      while p < words
        invariant p <= words && words - p <= 1 && 32 * p == 64 * i + b && (p < words ==> b == 0) && |bits| == |a|
        invariant forall k: nat :: k < 64 * |a| ==> Get(bits, k) == Masked(Get(a, k), mask, p, k, add, invert)
      {
        ghost var mid := bits;
        var m := if invert then InvertHalf(mask[p]) else mask[p];
        bits := bits[i := if add then Or(bits[i], Shl(Widen(m), b)) else And(bits[i], Not(Shl(Widen(m), b)))];
        HalfMasked(a, mid, bits, i, b, p, mask, add, invert);
        p, b := p + 1, b + 32;
      }
      AllMasked(mask, words, maskWords, size, add, invert);
      if add { ClearUnusedBits(); } else { NoneAdded(a, bits, size, mask, words, invert); }
    }
  }
}
