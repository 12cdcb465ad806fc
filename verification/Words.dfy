/** Machine words of 64 bits, lowest bit first, and the vectors of bits that are packed in them. */
module Words {

  const WORD_BITS: nat := 64

  type Word = w: seq<bool> | |w| == 64 witness seq(64, _ => false)

  function Zeros(): (r: Word)
    ensures forall k :: 0 <= k < WORD_BITS ==> !r[k]
  {
    seq(WORD_BITS, _ => false)
  }

  function Ones(): (r: Word)
    ensures forall k :: 0 <= k < WORD_BITS ==> r[k]
  {
    seq(WORD_BITS, _ => true)
  }

  function And(a: Word, b: Word): (r: Word)
    ensures forall k :: 0 <= k < WORD_BITS ==> r[k] == (a[k] && b[k])
  {
    seq(WORD_BITS, k requires 0 <= k < WORD_BITS => a[k] && b[k])
  }

  function Or(a: Word, b: Word): (r: Word)
    ensures forall k :: 0 <= k < WORD_BITS ==> r[k] == (a[k] || b[k])
  {
    seq(WORD_BITS, k requires 0 <= k < WORD_BITS => a[k] || b[k])
  }

  function Xor(a: Word, b: Word): (r: Word)
    ensures forall k :: 0 <= k < WORD_BITS ==> r[k] == (a[k] != b[k])
  {
    seq(WORD_BITS, k requires 0 <= k < WORD_BITS => a[k] != b[k])
  }

  function Not(a: Word): (r: Word)
    ensures forall k :: 0 <= k < WORD_BITS ==> r[k] == !a[k]
  {
    seq(WORD_BITS, k requires 0 <= k < WORD_BITS => !a[k])
  }

  /** Sets the bits of the mask, or clears them. */
  function Blend(a: Word, mask: Word, t: bool): (r: Word)
    ensures forall k :: 0 <= k < WORD_BITS ==> r[k] == if mask[k] then t else a[k]
  {
    if t then Or(a, mask) else And(a, Not(mask))
  }

  function Shl(a: Word, n: nat): (r: Word)
    ensures forall k :: 0 <= k < WORD_BITS ==> r[k] == (n <= k && a[k - n])
  {
    seq(WORD_BITS, k requires 0 <= k < WORD_BITS => n <= k && a[k - n])
  }

  function Shr(a: Word, n: nat): (r: Word)
    ensures forall k :: 0 <= k < WORD_BITS ==> r[k] == (k + n < WORD_BITS && a[k + n])
  {
    seq(WORD_BITS, k requires 0 <= k < WORD_BITS => k + n < WORD_BITS && a[k + n])
  }

  function One(): Word {
    seq(WORD_BITS, k => k == 0)
  }

  /** Subtraction, one bit after the other with a borrow. */
  function Minus(a: seq<bool>, b: seq<bool>, borrow: bool): (r: seq<bool>)
    requires |a| == |b|
    ensures |r| == |a|
  {
    if a == [] then []
    else
      var next := if a[0] then b[0] && borrow else b[0] || borrow;
      [(a[0] != b[0]) != borrow] + Minus(a[1..], b[1..], next)
  }

  function Power(n: nat, e: int): seq<bool> {
    seq(n, k => k == e)
  }

  function Between(n: nat, from: int, to: int): seq<bool> {
    seq(n, k => from <= k < to)
  }

  lemma {:induction false} BorrowRuns(n: nat, e: nat)
    ensures Minus(Power(n, e), Power(n, -1), true) == Between(n, 0, e)
    decreases n
  {
    if n > 0 {
      var a, b := Power(n, e), Power(n, -1);
      assert b[1..] == Power(n - 1, -1);
      assert Between(n, 0, e) == [0 < e] + Between(n, 0, e)[1..];
      if e > 0 {
        assert a[1..] == Power(n - 1, e - 1) && Between(n, 0, e)[1..] == Between(n - 1, 0, e - 1);
        BorrowRuns(n - 1, e - 1);
      } else {
        assert a[1..] == Power(n - 1, -1) && Between(n, 0, e)[1..] == Between(n - 1, 0, 0);
        NothingLeft(n - 1);
      }
    }
  }

  lemma {:induction false} NothingLeft(n: nat)
    ensures Minus(Power(n, -1), Power(n, -1), false) == Between(n, 0, 0)
  {
    if n > 0 {
      assert Power(n, -1)[1..] == Power(n - 1, -1);
      assert Between(n, 0, 0) == [false] + Between(n - 1, 0, 0);
      NothingLeft(n - 1);
    }
  }

  /** 2^e - 2^i has exactly the bits from i up to e. */
  lemma {:induction false} PowerDifference(n: nat, e: nat, i: nat)
    requires i <= e
    ensures Minus(Power(n, e), Power(n, i), false) == Between(n, i, e)
    decreases n
  {
    if n > 0 {
      var a, b := Power(n, e), Power(n, i);
      assert Between(n, i, e) == [i == 0 < e] + Between(n, i, e)[1..];
      if i > 0 {
        assert a[1..] == Power(n - 1, e - 1) && b[1..] == Power(n - 1, i - 1);
        assert Between(n, i, e)[1..] == Between(n - 1, i - 1, e - 1);
        PowerDifference(n - 1, e - 1, i - 1);
      } else if e > 0 {
        assert a[1..] == Power(n - 1, e - 1) && b[1..] == Power(n - 1, -1);
        assert Between(n, 0, e)[1..] == Between(n - 1, 0, e - 1);
        BorrowRuns(n - 1, e - 1);
      } else {
        assert a[1..] == Power(n - 1, -1) && b[1..] == Power(n - 1, -1);
        assert Between(n, 0, 0)[1..] == Between(n - 1, 0, 0);
        NothingLeft(n - 1);
      }
    }
  }

  /** The bits from i up to e, as a difference of two powers of two. */
  function RangeMask(i: nat, e: nat): (r: Word)
    requires i <= e < WORD_BITS
    ensures forall k :: 0 <= k < WORD_BITS ==> r[k] == (i <= k < e)
  {
    PowerDifference(WORD_BITS, e, i);
    assert Shl(One(), e) == Power(WORD_BITS, e);
    assert Shl(One(), i) == Power(WORD_BITS, i);
    Minus(Shl(One(), e), Shl(One(), i), false)
  }

  function TrailingOnesMask(n: nat): (r: Word)
    ensures forall k :: 0 <= k < WORD_BITS ==> r[k] == (k < n)
  {
    seq(WORD_BITS, k => k < n)
  }

  function TrailingZerosMask(n: nat): (r: Word)
    ensures forall k :: 0 <= k < WORD_BITS ==> r[k] == (n <= k)
  {
    Not(TrailingOnesMask(n))
  }

  function LeadingOnesMask(n: nat): (r: Word)
    ensures forall k :: 0 <= k < WORD_BITS ==> r[k] == (WORD_BITS - n <= k)
  {
    seq(WORD_BITS, k => WORD_BITS - n <= k)
  }

  /** The number of trailing zeros. */
  function TrailingZeros(w: seq<bool>): (r: nat)
    ensures r <= |w| && (forall k :: 0 <= k < r ==> !w[k]) && (r < |w| ==> w[r])
  {
    if w == [] || w[0] then 0 else 1 + TrailingZeros(w[1..])
  }

  function LeadingZeros(w: seq<bool>): (r: nat)
    ensures r <= |w| && (forall k :: |w| - r <= k < |w| ==> !w[k]) && (r < |w| ==> w[|w| - 1 - r])
  {
    if w == [] || w[|w| - 1] then 0 else 1 + LeadingZeros(w[..|w| - 1])
  }

  /** The number of leading ones. */
  function LeadingOnes(w: seq<bool>): nat {
    if w == [] || !w[|w| - 1] then 0 else 1 + LeadingOnes(w[..|w| - 1])
  }

  lemma {:induction false} LeadingOnesNot(w: seq<bool>, not: seq<bool>)
    requires |w| == |not| && forall k :: 0 <= k < |w| ==> not[k] == !w[k]
    ensures LeadingOnes(w) == LeadingZeros(not)
  {
    if w != [] { LeadingOnesNot(w[..|w| - 1], not[..|w| - 1]); }
  }

  lemma NotOnes(w: Word)
    ensures LeadingOnes(w) == LeadingZeros(Not(w))
    ensures w == Ones() <==> Not(w) == Zeros()
  {
    LeadingOnesNot(w, Not(w));
    assert Not(w) == Zeros() ==> w == Ones() by { assert forall k :: 0 <= k < 64 ==> Not(w)[k] == !w[k]; }
  }

  lemma NotZero(w: Word)
    requires w != Zeros()
    ensures TrailingZeros(w) < 64 && LeadingZeros(w) < 64
  {
    assert TrailingZeros(w) == 64 || LeadingZeros(w) == 64 ==> w == Zeros();
  }

  function PopCount(w: seq<bool>): nat {
    if w == [] then 0 else PopCount(w[..|w| - 1]) + if w[|w| - 1] then 1 else 0
  }

  lemma {:induction false} PopCountConcat(a: seq<bool>, b: seq<bool>)
    ensures PopCount(a + b) == PopCount(a) + PopCount(b)
  {
    if b == [] {
      assert a + b == a;
    } else {
      var n := |b| - 1;
      assert (a + b)[..|a + b| - 1] == a + b[..n];
      PopCountConcat(a, b[..n]);
    }
  }

  // ---- packed bits

  /** Bit k of the words; past their end there is none. */
  predicate Get(bits: seq<Word>, k: nat) {
    k / 64 < |bits| && bits[k / 64][k % 64]
  }

  /** Only the bits of [from, to) differ, and they are t. */
  ghost predicate Overwritten(before: seq<Word>, after: seq<Word>, from: nat, to: nat, t: bool) {
    |after| == |before| && forall k: nat :: Get(after, k) == if from <= k < to then t else Get(before, k)
  }

  lemma NothingOverwritten(bits: seq<Word>, k: nat, t: bool)
    ensures Overwritten(bits, bits, k, k, t)
  {
  }

  /** Overwriting part of one word overwrites that run of bits. */
  lemma PartOfWord(bits: seq<Word>, j: nat, w: Word, lo: nat, hi: nat, t: bool)
    requires j < |bits| && lo <= hi <= 64
    requires forall b :: 0 <= b < 64 ==> w[b] == if lo <= b < hi then t else bits[j][b]
    ensures Overwritten(bits, bits[j := w], 64 * j + lo, 64 * j + hi, t)
  {
    var after := bits[j := w];
    forall k: nat ensures Get(after, k) == if 64 * j + lo <= k < 64 * j + hi then t else Get(bits, k) {
      assert k == 64 * (k / 64) + k % 64;
    }
  }

  /** A run next to a run, or over its end. */
  lemma OverwrittenOn(before: seq<Word>, mid: seq<Word>, after: seq<Word>, from: nat, via: nat, next: nat, to: nat,
      t: bool)
    requires Overwritten(before, mid, from, via, t) && Overwritten(mid, after, next, to, t)
    requires from <= next <= via <= to
    ensures Overwritten(before, after, from, to, t)
  {
    hide Get;
  }

  lemma WordOf(i: nat, k: nat)
    requires i % 64 == 0 && i <= k < i + 64
    ensures k / 64 == i / 64 && 64 * (k / 64) == i && i + k % 64 == k
  {
  }

  /** One more word, whole or in part, at the end of a run. */
  lemma OverwrittenNext(before: seq<Word>, mid: seq<Word>, w: Word, start: nat, done: nat, i: nat, hi: nat, t: bool)
    requires Overwritten(before, mid, start, done, t) && i % 64 == 0 && i / 64 < |mid| && hi <= 64
    requires start <= i <= done <= i + hi
    requires forall b :: 0 <= b < 64 ==> w[b] == if b < hi then t else mid[i / 64][b]
    ensures Overwritten(before, mid[i / 64 := w], start, i + hi, t)
  {
    hide Get, Overwritten;
    PartOfWord(mid, i / 64, w, 0, hi, t);
    OverwrittenOn(before, mid, mid[i / 64 := w], start, done, i, i + hi, t);
  }

  function WordsFor(size: nat): (n: nat)
    ensures 64 * n >= size && 64 * n < size + 64
  {
    (size + 63) / 64
  }

  /** As many words as the size needs, and every bit past the size is zero. */
  ghost predicate Canonical(bits: seq<Word>, size: nat) {
    |bits| == WordsFor(size) && forall k: nat :: k >= size ==> !Get(bits, k)
  }

  function View(bits: seq<Word>, size: nat): (r: seq<bool>)
    ensures |r| == size && forall k :: 0 <= k < size ==> r[k] == Get(bits, k)
  {
    seq(size, k requires 0 <= k < size => Get(bits, k))
  }

  lemma CanonicalSize(bits: seq<Word>, size: nat)
    requires Canonical(bits, size)
    ensures |bits| == WordsFor(size)
  {
  }

  /** Overwriting used bits keeps the representation canonical. */
  lemma OverwrittenView(before: seq<Word>, after: seq<Word>, size: nat, from: nat, to: nat, t: bool)
    requires Canonical(before, size) && Overwritten(before, after, from, to, t) && from <= to <= size
    ensures Canonical(after, size)
    ensures View(after, size) == View(before, size)[..from] + seq(to - from, _ => t) + View(before, size)[to..]
  {
    hide Get;
  }

  /** More words of one kind, or fewer words. */
  lemma WordsResized(before: seq<Word>, after: seq<Word>, n: nat, t: bool)
    requires after == if n <= |before| then before[..n]
      else before + seq(n - |before|, _ => if t then Ones() else Zeros())
    ensures |after| == n
    ensures forall k: nat :: k < 64 * n ==> Get(after, k) == if k < 64 * |before| then Get(before, k) else t
  {
  }

  /** The word shows which of its bits lie in [begin, end) and have the value sought. */
  ghost predicate Window(bits: seq<Word>, i: nat, begin: nat, end: nat, sought: bool, w: Word) {
    forall k: nat :: 64 * i <= k < 64 * i + 64 ==> w[k - 64 * i] == (begin <= k < end && Get(bits, k) == sought)
  }

  lemma WindowMade(bits: seq<Word>, i: nat, begin: nat, end: nat, sought: bool, w: Word)
    requires i < |bits| && begin < end && begin / 64 <= i <= (end - 1) / 64
    requires forall b :: 0 <= b < 64 ==>
      (w[b] <==>
        && bits[i][b] == sought && (i == begin / 64 ==> begin % 64 <= b)
        && (i == (end - 1) / 64 ==> b <= (end - 1) % 64))
    ensures Window(bits, i, begin, end, sought, w)
  {
    forall k: nat | 64 * i <= k < 64 * i + 64
      ensures w[k - 64 * i] == (begin <= k < end && Get(bits, k) == sought)
    {
      WordOf(64 * i, k);
    }
  }

  lemma WindowAt(bits: seq<Word>, i: nat, begin: nat, end: nat, sought: bool, w: Word, k: nat)
    requires Window(bits, i, begin, end, sought, w) && 64 * i <= k < 64 * i + 64
    ensures w[k - 64 * i] <==> begin <= k < end && Get(bits, k) == sought
  {
  }

  ghost predicate Nothing(bits: seq<Word>, begin: nat, end: nat, sought: bool) {
    forall k: nat :: begin <= k < end ==> Get(bits, k) != sought
  }

  lemma WindowFirst(bits: seq<Word>, i: nat, begin: nat, end: nat, sought: bool, w: Word)
    requires Window(bits, i, begin, end, sought, w)
    requires forall k: nat :: begin <= k < end && k < 64 * i ==> Get(bits, k) != sought
    ensures w == Zeros() ==> forall k: nat :: begin <= k < end && k < 64 * i + 64 ==> Get(bits, k) != sought
    ensures w != Zeros() ==> var r := 64 * i + TrailingZeros(w);
      begin <= r < end && Get(bits, r) == sought && Nothing(bits, begin, r, sought)
  {
    hide Get;
    var zeros := TrailingZeros(w);
    forall k: nat | begin <= k < end && 64 * i <= k < 64 * i + zeros
      ensures Get(bits, k) != sought
    {
      assert !w[k - 64 * i];
    }
    if w == Zeros() {
      assert zeros == 64;
    } else {
      NotZero(w);
      WindowAt(bits, i, begin, end, sought, w, 64 * i + zeros);
    }
  }

  lemma WindowLast(bits: seq<Word>, i: nat, begin: nat, end: nat, sought: bool, w: Word)
    requires Window(bits, i, begin, end, sought, w)
    requires forall k: nat :: begin <= k < end && 64 * i + 64 <= k ==> Get(bits, k) != sought
    ensures w == Zeros() ==> forall k: nat :: begin <= k < end && 64 * i <= k ==> Get(bits, k) != sought
    ensures w != Zeros() ==> var r := 64 * (i + 1) - LeadingZeros(w) - 1;
      begin <= r < end && Get(bits, r) == sought && Nothing(bits, r + 1, end, sought)
  {
    hide Get;
    var zeros := LeadingZeros(w);
    forall k: nat | begin <= k < end && 64 * i + 64 - zeros <= k < 64 * i + 64
      ensures Get(bits, k) != sought
    {
      assert !w[k - 64 * i];
    }
    if w == Zeros() {
      assert zeros == 64;
    } else {
      NotZero(w);
      WindowAt(bits, i, begin, end, sought, w, 64 * (i + 1) - zeros - 1);
    }
  }

  /** Equal words are equal bits, because the representation is canonical. */
  lemma SameWordsSameBits(a: seq<Word>, b: seq<Word>, size: nat)
    requires Canonical(a, size) && Canonical(b, size)
    ensures a == b <==> View(a, size) == View(b, size)
  {
    if View(a, size) == View(b, size) {
      forall i | 0 <= i < |a| ensures a[i] == b[i] {
        forall j | 0 <= j < 64 ensures a[i][j] == b[i][j] {
          var k := 64 * i + j;
          assert Get(a, k) == a[i][j] && Get(b, k) == b[i][j];
          if k < size { assert View(a, size)[k] == View(b, size)[k]; }
        }
      }
    }
  }

  /** Word by word is bit by bit. */
  lemma Wordwise(a: seq<Word>, b: seq<Word>, c: seq<Word>, op: (bool, bool) -> bool)
    requires |c| == |a|
    requires forall j, k :: 0 <= j < |a| && 0 <= k < 64 ==> c[j][k] == op(a[j][k], j < |b| && b[j][k])
    ensures forall k: nat :: k < 64 * |a| ==> Get(c, k) == op(Get(a, k), Get(b, k))
  {
  }

  /** The list of set bits. */
  function Indices(s: seq<bool>): seq<nat> {
    if s == [] then [] else Indices(s[..|s| - 1]) + if s[|s| - 1] then [|s| - 1] else []
  }

  lemma {:induction false} IndicesCount(s: seq<bool>)
    ensures |Indices(s)| == PopCount(s)
  {
    if s != [] { IndicesCount(s[..|s| - 1]); }
  }

  /** The list holds every set bit and nothing else, in increasing order. */
  lemma {:induction false} IndicesAreSetBits(s: seq<bool>)
    ensures forall i :: 0 <= i < |Indices(s)| ==> Indices(s)[i] < |s| && s[Indices(s)[i]]
    ensures forall k: nat :: k < |s| && s[k] ==> k in Indices(s)
    ensures forall i, j :: 0 <= i < j < |Indices(s)| ==> Indices(s)[i] < Indices(s)[j]
  {
    if s != [] { IndicesAreSetBits(s[..|s| - 1]); }
  }

  lemma {:induction false} IndicesGap(s: seq<bool>, lo: nat, hi: nat)
    requires lo <= hi <= |s| && forall k :: lo <= k < hi ==> !s[k]
    ensures Indices(s[..hi]) == Indices(s[..lo])
    decreases hi
  {
    if lo < hi {
      assert s[..hi][..hi - 1] == s[..hi - 1];
      IndicesGap(s, lo, hi - 1);
    }
  }

  lemma IndicesNext(s: seq<bool>, k: nat)
    requires k < |s| && s[k]
    ensures Indices(s[..k + 1]) == Indices(s[..k]) + [k]
  {
    assert s[..k + 1][..k] == s[..k];
  }

  function Flat(bits: seq<Word>): (r: seq<bool>)
    ensures |r| == 64 * |bits|
  {
    if bits == [] then [] else Flat(bits[..|bits| - 1]) + bits[|bits| - 1]
  }

  lemma {:induction false} FlatGet(bits: seq<Word>, k: nat)
    requires k < 64 * |bits|
    ensures Flat(bits)[k] == Get(bits, k)
    decreases bits
  {
    var n := |bits| - 1;
    if k < 64 * n { FlatGet(bits[..n], k); }
  }

  lemma {:induction false} NoneCounted(n: nat)
    ensures PopCount(seq(n, _ => false)) == 0
  {
    if n > 0 {
      assert seq(n, _ => false)[..n - 1] == seq(n - 1, _ => false);
      NoneCounted(n - 1);
    }
  }

  /** Unused bits are zero, so counting the words counts the vector. */
  lemma WordsCounted(bits: seq<Word>, size: nat)
    requires Canonical(bits, size)
    ensures PopCount(Flat(bits)) == PopCount(View(bits, size))
  {
    var rest := seq(64 * |bits| - size, _ => false);
    forall k | 0 <= k < 64 * |bits| ensures Flat(bits)[k] == (View(bits, size) + rest)[k] { FlatGet(bits, k); }
    assert Flat(bits) == View(bits, size) + rest;
    PopCountConcat(View(bits, size), rest);
    NoneCounted(|rest|);
  }

  /** Bit k, or false past the end. */
  predicate At(s: seq<bool>, k: nat) {
    k < |s| && s[k]
  }

  /** A bitwise combination that maps two zeros to zero keeps the representation canonical. */
  lemma CombinedView(a: seq<Word>, size: nat, b: seq<Word>, other: nat, c: seq<Word>, op: (bool, bool) -> bool)
    requires Canonical(a, size) && Canonical(b, other) && |c| == |a| && !op(false, false)
    requires (other <= size || forall x :: !op(false, x))
    requires forall k: nat :: k < 64 * |a| ==> Get(c, k) == op(Get(a, k), Get(b, k))
    ensures Canonical(c, size)
    ensures forall k :: 0 <= k < size ==> View(c, size)[k] == op(View(a, size)[k], At(View(b, other), k))
  {
  }

  // ---- shifting

  /** Below `upto`, the bits of b are those of a moved up by n. */
  ghost predicate MovedUp(a: seq<Word>, b: seq<Word>, upto: nat, n: nat) {
    forall k: nat :: k < upto ==> Get(b, k) == (n <= k && Get(a, k - n))
  }

  ghost predicate MovedDown(a: seq<Word>, b: seq<Word>, n: nat) {
    forall k: nat :: Get(b, k) == Get(a, k + n)
  }

  lemma MovedUpTwice(a: seq<Word>, b: seq<Word>, c: seq<Word>, upto: nat, m: nat, n: nat)
    requires MovedUp(a, b, upto, m) && MovedUp(b, c, upto, n)
    ensures MovedUp(a, c, upto, m + n)
  {
    hide Get;
    forall k: nat | k < upto ensures Get(c, k) == (m + n <= k && Get(a, k - (m + n))) {
      if n <= k { assert Get(b, k - n) == (m <= k - n && Get(a, k - n - m)); }
    }
  }

  lemma MovedDownTwice(a: seq<Word>, b: seq<Word>, c: seq<Word>, m: nat, n: nat)
    requires MovedDown(a, b, m) && MovedDown(b, c, n)
    ensures MovedDown(a, c, m + n)
  {
    hide Get;
    forall k: nat ensures Get(c, k) == Get(a, k + (m + n)) { assert Get(b, k + n) == Get(a, k + n + m); }
  }

  lemma NotMoved(a: seq<Word>, upto: nat)
    ensures MovedUp(a, a, upto, 0) && MovedDown(a, a, 0)
  {
  }

  /** Dropping words from the front moves the bits down by whole words. */
  lemma WordsDown(a: seq<Word>, b: seq<Word>, count: nat)
    requires count <= |a| && b == a[count..] + seq(count, _ => Zeros())
    ensures |b| == |a| && MovedDown(a, b, 64 * count)
  {
    forall k: nat ensures Get(b, k) == Get(a, k + 64 * count) {
      assert (k + 64 * count) / 64 == k / 64 + count && (k + 64 * count) % 64 == k % 64;
    }
  }

  lemma WordsUp(a: seq<Word>, b: seq<Word>, count: nat)
    requires count <= |a| && b == seq(count, _ => Zeros()) + a[..|a| - count]
    ensures |b| == |a| && MovedUp(a, b, 64 * |a|, 64 * count)
  {
    forall k: nat | k < 64 * |a| ensures Get(b, k) == (64 * count <= k && Get(a, k - 64 * count)) {
      if 64 * count <= k {
        assert (k - 64 * count) / 64 == k / 64 - count && (k - 64 * count) % 64 == k % 64;
      }
    }
  }

  // ----- a copy that overlaps its own source

  /** The first k steps of a copy by `count` words upwards, one word after the other from the front. */
  function FrontToBack(a: seq<Word>, count: nat, k: nat): (b: seq<Word>)
    requires count + k <= |a|
    ensures |b| == |a|
  {
    if k == 0 then a
    else
      var b := FrontToBack(a, count, k - 1);
      b[count + k - 1 := b[k - 1]]
  }

  /** The first `count` words move right, and the word after those is a copy of a copy. */
  lemma {:induction false} FrontFirst(a: seq<Word>, count: nat, k: nat)
    requires 0 < count && count + k <= |a|
    ensures forall i :: 0 <= i < |a| && (i < count || count + k <= i) ==> FrontToBack(a, count, k)[i] == a[i]
    ensures forall i :: 0 <= i < count && i < k ==> FrontToBack(a, count, k)[count + i] == a[i]
    ensures k > count ==> FrontToBack(a, count, k)[2 * count] == a[0]
  {
    if k > 0 { FrontFirst(a, count, k - 1); }
  }

  /** The words above the first `count` are the ones the copy was to move there. */
  predicate MovedWords(a: seq<Word>, count: nat)
    requires count <= |a|
  {
    FrontToBack(a, count, |a| - count)[count..] == a[..|a| - count]
  }

  /** It moves every array of n words right exactly when source and target do not overlap. */
  lemma FrontToBackExactly(n: nat, count: nat)
    requires count <= n
    ensures (forall a: seq<Word> :: |a| == n ==> MovedWords(a, count)) <==> count == 0 || n <= 2 * count
  {
    hide FrontToBack;
    if count == 0 {
      forall a: seq<Word> | |a| == n ensures MovedWords(a, count) { NothingToMove(a, n); }
    } else if n <= 2 * count {
      forall a: seq<Word> | |a| == n ensures MovedWords(a, count) { ShortMove(a, count); }
    } else {
      var a := [Ones()] + seq(n - 1, _ => Zeros());
      FrontFirst(a, count, n - count);
      assert FrontToBack(a, count, n - count)[count..][count] == a[0];
      assert a[..n - count][count] == a[count] == Zeros() && Ones()[0] != Zeros()[0];
      assert !MovedWords(a, count);
    }
  }

  lemma ShortMove(a: seq<Word>, count: nat)
    requires 0 < count <= |a| <= 2 * count
    ensures MovedWords(a, count)
  {
    hide FrontToBack;
    FrontFirst(a, count, |a| - count);
  }

  lemma {:induction false} NothingToMove(a: seq<Word>, k: nat)
    requires k <= |a|
    ensures FrontToBack(a, 0, k) == a
  {
    if k > 0 { NothingToMove(a, k - 1); }
  }

  /** The word that takes its low bits from one word and its high bits from the next. */
  function JoinDown(low: Word, high: Word, d: nat): (r: Word)
    requires 0 < d < 64
    ensures forall b :: 0 <= b < 64 ==> r[b] == if b + d < 64 then low[b + d] else high[b + d - 64]
  {
    Or(Shr(low, d), Shl(And(high, TrailingOnesMask(d)), 64 - d))
  }

  function JoinUp(low: Word, high: Word, d: nat): (r: Word)
    requires 0 < d < 64
    ensures forall b :: 0 <= b < 64 ==> r[b] == if d <= b then high[b - d] else low[b + 64 - d]
  {
    Or(Shl(high, d), Shr(And(low, LeadingOnesMask(d)), 64 - d))
  }

  lemma JoinsDown(low: Word, high: Word, d: nat)
    requires 0 < d < 64
    ensures JoinDown(low, high, d) == Or(Shr(low, d), Shl(And(high, TrailingOnesMask(d)), 64 - d))
  {
  }

  lemma JoinsUp(low: Word, high: Word, d: nat)
    requires 0 < d < 64
    ensures JoinUp(low, high, d) == Or(Shl(high, d), Shr(And(low, LeadingOnesMask(d)), 64 - d))
  {
  }

  lemma GetAt(bits: seq<Word>, j: nat, r: nat)
    requires r < 64
    ensures Get(bits, 64 * j + r) <==> j < |bits| && bits[j][r]
  {
    WordOf(64 * j, 64 * j + r);
  }

  lemma BitsDown(a: seq<Word>, b: seq<Word>, d: nat)
    requires 0 < d < 64 && |b| == |a|
    requires forall j {:trigger b[j]} :: 0 <= j < |a| ==>
      b[j] == if j + 1 < |a| then JoinDown(a[j], a[j + 1], d) else Shr(a[j], d)
    ensures MovedDown(a, b, d)
  {
    hide Get, JoinDown, Shr;
    forall k: nat ensures Get(b, k) == Get(a, k + d) {
      var j, r := k / 64, k % 64;
      GetAt(b, j, r);
      if r + d < 64 { GetAt(a, j, r + d); } else { GetAt(a, j + 1, r + d - 64); }
    }
  }

  lemma BitsUp(a: seq<Word>, b: seq<Word>, d: nat)
    requires 0 < d < 64 && |b| == |a|
    requires forall j {:trigger b[j]} :: 0 <= j < |a| ==>
      b[j] == if j > 0 then JoinUp(a[j - 1], a[j], d) else Shl(a[j], d)
    ensures MovedUp(a, b, 64 * |a|, d)
  {
    hide Get, JoinUp, Shl;
    forall k: nat | k < 64 * |a| ensures Get(b, k) == (d <= k && Get(a, k - d)) {
      var j, r := k / 64, k % 64;
      GetAt(b, j, r);
      if d <= r { GetAt(a, j, r - d); } else if j > 0 { GetAt(a, j - 1, r + 64 - d); }
    }
  }

  lemma DownView(a: seq<Word>, b: seq<Word>, size: nat, n: nat)
    requires Canonical(a, size) && |b| == |a| && n <= size && MovedDown(a, b, n)
    ensures Canonical(b, size) && View(b, size) == View(a, size)[n..] + seq(n, _ => false)
  {
    hide Get;
  }

  lemma UpView(a: seq<Word>, b: seq<Word>, size: nat, n: nat)
    requires n <= size && MovedUp(a, b, size, n)
    ensures View(b, size) == seq(n, _ => false) + View(a, size)[..size - n]
  {
    hide Get;
  }

  lemma MovedUpLess(a: seq<Word>, b: seq<Word>, upto: nat, less: nat, n: nat)
    requires MovedUp(a, b, upto, n) && less <= upto
    ensures MovedUp(a, b, less, n)
  {
    hide Get;
  }

  // ---- portable masks of 32 bits

  type Half = h: seq<bool> | |h| == 32 witness seq(32, _ => false)

  function Widen(h: Half): (r: Word)
    ensures forall k :: 0 <= k < WORD_BITS ==> r[k] == (k < 32 && h[k])
  {
    h + seq(32, _ => false)
  }

  function InvertHalf(h: Half): (r: Half)
    ensures forall k :: 0 <= k < 32 ==> r[k] == !h[k]
  {
    seq(32, k requires 0 <= k < 32 => !h[k])
  }

  /** What a mask does to bit k when its first `words` words count. */
  predicate Masked(bit: bool, mask: seq<Half>, words: nat, k: nat, add: bool, invert: bool) {
    if k / 32 < words && k / 32 < |mask| then
      var m := mask[k / 32][k % 32] != invert;
      if add then bit || m else bit && !m
    else bit
  }

  /** Half b of word i, next to be done: p words of the mask are done. */
  lemma HalfMasked(a: seq<Word>, mid: seq<Word>, after: seq<Word>, i: nat, b: nat, p: nat, mask: seq<Half>, add: bool,
      invert: bool)
    requires i < |mid| == |a| && (b == 0 || b == 32) && 32 * p == 64 * i + b && p < |mask|
    requires forall k: nat :: k < 64 * |a| ==> Get(mid, k) == Masked(Get(a, k), mask, p, k, add, invert)
    requires var m := if invert then InvertHalf(mask[p]) else mask[p];
      after == mid[i := if add then Or(mid[i], Shl(Widen(m), b)) else And(mid[i], Not(Shl(Widen(m), b)))]
    ensures forall k: nat :: k < 64 * |a| ==> Get(after, k) == Masked(Get(a, k), mask, p + 1, k, add, invert)
  {
    hide Or, And, Not, Shl, Widen, InvertHalf;
    forall k: nat | k < 64 * |a| ensures Get(after, k) == Masked(Get(a, k), mask, p + 1, k, add, invert) {
      assert Get(mid, k) == Masked(Get(a, k), mask, p, k, add, invert);
      if 32 * p <= k < 32 * p + 32 {
        WordOf(64 * i, k);
        assert k / 32 == p && k % 32 == k % 64 - b;
      } else {
        assert k / 32 != p;
        assert Get(after, k) == Get(mid, k);
      }
    }
  }

  lemma NoneMasked(bits: seq<Word>, mask: seq<Half>, add: bool, invert: bool)
    ensures forall k: nat :: Get(bits, k) == Masked(Get(bits, k), mask, 0, k, add, invert)
  {
  }

  /** Mask words past the vector do not matter. */
  lemma AllMasked(mask: seq<Half>, words: nat, given: nat, size: nat, add: bool, invert: bool)
    requires words == if given < (size + 31) / 32 then given else (size + 31) / 32
    ensures forall bit, k: nat :: k < size ==>
      Masked(bit, mask, words, k, add, invert) == Masked(bit, mask, given, k, add, invert)
  {
  }

  /** Removing bits leaves unused bits zero. */
  lemma NoneAdded(a: seq<Word>, b: seq<Word>, size: nat, mask: seq<Half>, words: nat, invert: bool)
    requires Canonical(a, size) && |b| == |a|
    requires forall k: nat :: k < 64 * |a| ==> Get(b, k) == Masked(Get(a, k), mask, words, k, false, invert)
    ensures Canonical(b, size)
  {
  }
}
