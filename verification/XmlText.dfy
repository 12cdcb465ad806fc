/** Characters, scanning and reference expansion of the XML text layer, on NUL-terminated text. */
module XmlText {

  type Ch = char
  type Str = seq<Ch>

  const NUL: Ch := '\0'

  datatype Result<+T> = Ok(value: T) | Err(message: string) {
    predicate IsFailure() { Err? }
    function PropagateFailure<U>(): Result<U> requires Err? { Err(message) }
    function Extract(): T requires Ok? { value }
  }

  ghost predicate Terminated(s: Str) { |s| > 0 && s[|s| - 1] == NUL }

  ghost predicate NulFree(s: Str) { NUL !in s }

  predicate IsSpace(c: Ch) { c == ' ' || c == '\n' || c == '\r' || c == '\t' }

  predicate IsNodeName(c: Ch) { !IsSpace(c) && c != '/' && c != '>' && c != '?' && c != NUL }

  predicate IsAttributeName(c: Ch) {
    !IsSpace(c) && c != '/' && c != '<' && c != '>' && c != '=' && c != '?' && c != '!' && c != NUL
  }

  /** t occurs in s at position p. */
  predicate HasAt(s: Str, p: nat, t: Str) {
    p + |t| <= |s| && s[p..p + |t|] == t
  }

  lemma HasAtConcat(s: Str, p: nat, a: Str, b: Str)
    ensures HasAt(s, p, a + b) <==> HasAt(s, p, a) && HasAt(s, p + |a|, b)
  {
    if p + |a| + |b| <= |s| {
      var t := s[p..p + |a| + |b|];
      assert t[..|a|] == s[p..p + |a|];
      assert t[|a|..] == s[p + |a|..p + |a| + |b|];
      assert (a + b)[..|a|] == a && (a + b)[|a|..] == b;
      if HasAt(s, p, a) && HasAt(s, p + |a|, b) {
        assert t == t[..|a|] + t[|a|..];
      }
    }
  }

  lemma HasAtIndex(s: Str, p: nat, t: Str, i: nat)
    requires HasAt(s, p, t) && i < |t|
    ensures p + i < |s| && s[p + i] == t[i]
  {
    assert s[p..p + |t|][i] == s[p + i];
  }

  lemma LastNotNul(s: Str, p: nat, t: Str)
    requires Terminated(s) && HasAt(s, p, t) && |t| > 0 && t[|t| - 1] != NUL
    ensures p + |t| < |s|
  {
    HasAtIndex(s, p, t, |t| - 1);
  }

  // ----- UTF-8

  /** The bytes insert_coded_character writes for a code point. */
  function Utf8(code: nat): (s: Str)
    requires code < 0x110000
    ensures 1 <= |s| <= 4
  {
    if code < 0x80 then [code as char]
    else if code < 0x800 then [(0xC0 + code / 64) as char, (0x80 + code % 64) as char]
    else if code < 0x10000 then
      [(0xE0 + code / 64 / 64) as char, (0x80 + code / 64 % 64) as char, (0x80 + code % 64) as char]
    else
      [(0xF0 + code / 64 / 64 / 64) as char, (0x80 + code / 64 / 64 % 64) as char,
       (0x80 + code / 64 % 64) as char, (0x80 + code % 64) as char]
  }

  // ----- the masks the bytes are made with

  function BitOr(a: nat, b: nat): nat {
    if a == 0 && b == 0 then 0 else 2 * BitOr(a / 2, b / 2) + if a % 2 == 1 || b % 2 == 1 then 1 else 0
  }

  function BitAnd(a: nat, b: nat): nat {
    if a == 0 || b == 0 then 0 else 2 * BitAnd(a / 2, b / 2) + if a % 2 == 1 && b % 2 == 1 then 1 else 0
  }


  lemma OneBit(a: nat, i: nat, b: nat, j: nat)
    requires i < 2 && j < 2
    ensures BitOr(2 * a + i, 2 * b + j) == 2 * BitOr(a, b) + if i == 1 || j == 1 then 1 else 0
    ensures BitAnd(2 * a + i, 2 * b + j) == 2 * BitAnd(a, b) + if i == 1 && j == 1 then 1 else 0
  {
    if a == 0 || b == 0 { assert BitAnd(a, b) == 0; }
  }

  lemma TwoBits(a: nat, i: nat, b: nat)
    requires i < 4
    ensures BitOr(4 * a + i, 4 * b) == 4 * BitOr(a, b) + i
    ensures BitAnd(4 * a + i, 4 * b + 3) == 4 * BitAnd(a, b) + i
  {
    hide BitOr, BitAnd;
    OneBit(a, i / 2, b, 0);
    OneBit(2 * a + i / 2, i % 2, 2 * b, 0);
    OneBit(a, i / 2, b, 1);
    OneBit(2 * a + i / 2, i % 2, 2 * b + 1, 1);
  }

  lemma SixBits(a: nat, i: nat, b: nat)
    requires i < 64
    ensures BitOr(64 * a + i, 64 * b) == 64 * BitOr(a, b) + i
    ensures BitAnd(64 * a + i, 64 * b + 63) == 64 * BitAnd(a, b) + i
  {
    hide BitOr, BitAnd;
    TwoBits(a, i / 16, b);
    TwoBits(4 * a + i / 16, i / 4 % 4, 4 * b);
    TwoBits(16 * a + i / 4, i % 4, 16 * b);
    TwoBits(4 * a + i / 16, i / 4 % 4, 4 * b + 3);
    TwoBits(16 * a + i / 4, i % 4, 16 * b + 15);
  }

  lemma NoBits(a: nat)
    ensures BitAnd(a, 0) == 0 && BitOr(a, 0) == BitOr(0, a) == a
  {
  }

  lemma TailBits(rest: nat, b1: nat, b0: nat, low: nat)
    requires b1 < 2 && b0 < 2 && low < 64
    ensures BitAnd(BitOr(64 * (4 * rest + 2 * b1 + b0) + low, 0x80), 0xBF) == 0x80 + low
  {
    hide BitOr, BitAnd;
    SixBits(4 * rest + 2 * b1 + b0, low, 2);
    OneBit(2 * rest + b1, b0, 1, 0);
    OneBit(rest, b1, 0, 1);
    NoBits(rest);
    SixBits(4 * rest + 2 + b0, low, 2);
    OneBit(2 * rest + 1, b0, 1, 0);
    OneBit(rest, 1, 0, 1);
  }

  /** A continuation byte: the low six bits of the code under the mark 10. */
  lemma TailByte(code: nat)
    ensures BitAnd(BitOr(code, 0x80), 0xBF) == 0x80 + code % 64
  {
    hide BitOr, BitAnd;
    var high := code / 64;
    var half := high / 2;
    TailBits(half / 2, half % 2, high % 2, code % 64);
  }

  /** A lead byte: what is left of the code under its mark. */
  lemma LeadByte(code: nat, mark: nat)
    requires (code < 64 && mark % 64 == 0) || (code < 16 && mark % 16 == 0)
    ensures BitOr(code, mark) == mark + code
  {
    hide BitOr, BitAnd;
    if code < 16 && mark % 16 == 0 {
      TwoBits(0, code / 4, mark / 16);
      TwoBits(code / 4, code % 4, mark / 16 * 4);
      NoBits(mark / 16);
    } else {
      SixBits(0, code, mark / 64);
      NoBits(mark / 64);
    }
  }

  function TailChar(code: nat): (c: Ch)
    ensures c as int == 0x80 + code % 64
  {
    TailByte(code);
    BitAnd(BitOr(code, 0x80), 0xBF) as char
  }

  function LeadChar(code: nat, mark: nat): (c: Ch)
    requires (mark == 0xC0 && code < 32) || (mark == 0xE0 && code < 16) || (mark == 0xF0 && code < 8)
    ensures c as int == mark + code
  {
    LeadByte(code, mark);
    BitOr(code, mark) as char
  }

  predicate IsTail(c: Ch) { 0x80 <= c as int < 0xC0 }

  function Tail(c: Ch): nat requires IsTail(c) { c as int - 0x80 }

  predicate IsSurrogate(code: nat) { 0xD800 <= code < 0xE000 }

  /** Decodes the first character of s as sections 3 and 4 of RFC 3629 prescribe: shortest form only,
      no surrogates, at most 0x10FFFF. */
  function DecodeUtf8(s: Str): (r: Result<(nat, nat)>) {
    if |s| >= 1 && s[0] as int < 0x80 then Ok((s[0] as int, 1))
    else if |s| >= 2 && 0xC2 <= s[0] as int < 0xE0 && IsTail(s[1]) then
      Ok(((s[0] as int - 0xC0) * 64 + Tail(s[1]), 2))
    else if |s| >= 3 && 0xE0 <= s[0] as int < 0xF0 && IsTail(s[1]) && IsTail(s[2]) then
      var code := (s[0] as int - 0xE0) * 4096 + Tail(s[1]) * 64 + Tail(s[2]);
      if code < 0x800 || IsSurrogate(code) then Err("ill-formed") else Ok((code, 3))
    else if |s| >= 4 && 0xF0 <= s[0] as int < 0xF5 && IsTail(s[1]) && IsTail(s[2]) && IsTail(s[3]) then
      var code := (s[0] as int - 0xF0) * 262144 + Tail(s[1]) * 4096 + Tail(s[2]) * 64 + Tail(s[3]);
      if code < 0x10000 || code >= 0x110000 then Err("ill-formed") else Ok((code, 4))
    else Err("ill-formed")
  }

  /** The written bytes decode to the code point, whatever follows, unless it is a surrogate. */
  lemma Utf8RoundTrip(code: nat, rest: Str)
    requires code < 0x110000
    ensures DecodeUtf8(Utf8(code) + rest) == Ok((code, |Utf8(code)|)) <==> !IsSurrogate(code)
  {
    var u, s := Utf8(code), Utf8(code) + rest;
    assert forall i :: 0 <= i < |u| ==> s[i] == u[i];
    Base64Digits(code);
    if 0x800 <= code < 0x10000 {
      assert (u[0] as int - 0xE0) * 4096 + Tail(u[1]) * 64 + Tail(u[2]) == code;
    } else if code >= 0x10000 {
      assert (u[0] as int - 0xF0) * 262144 + Tail(u[1]) * 4096 + Tail(u[2]) * 64 + Tail(u[3]) == code;
    }
  }

  /** Nothing else decodes: what does is the bytes of a code below 0x110000 that is no surrogate. */
  lemma Utf8Only(s: Str)
    requires DecodeUtf8(s).Ok?
    ensures var (code, n) := DecodeUtf8(s).value;
      && code < 0x110000 && (code < 0xD800 || 0xE000 <= code)
      && n == |Utf8(code)| <= |s| && s[..n] == Utf8(code)
  {
    hide Utf8;
    var (code, n) := DecodeUtf8(s).value;
    if n == 1 { OneByte(s[0]); }
    else if n == 2 { TwoBytes(s[0], s[1]); }
    else if n == 3 { ThreeBytes(s[0], s[1], s[2]); }
    else { AllBytes(s[0], s[1], s[2], s[3]); }
  }

  lemma OneByte(a: Ch)
    requires a as int < 0x80
    ensures Utf8(a as int) == [a]
  {
  }

  lemma TwoBytes(a: Ch, b: Ch)
    requires 0xC2 <= a as int < 0xE0 && IsTail(b)
    ensures var code := (a as int - 0xC0) * 64 + Tail(b); code < 0x800 && Utf8(code) == [a, b]
  {
    LastDigit(a as int - 0xC0, Tail(b));
  }

  lemma ThreeBytes(a: Ch, b: Ch, c: Ch)
    requires 0xE0 <= a as int < 0xF0 && IsTail(b) && IsTail(c)
    ensures var code := (a as int - 0xE0) * 4096 + Tail(b) * 64 + Tail(c);
      code < 0x10000 && (code >= 0x800 ==> Utf8(code) == [a, b, c])
  {
    var high := (a as int - 0xE0) * 64 + Tail(b);
    LastDigit(a as int - 0xE0, Tail(b));
    LastDigit(high, Tail(c));
    assert (a as int - 0xE0) * 4096 + Tail(b) * 64 + Tail(c) == high * 64 + Tail(c);
  }

  lemma AllBytes(a: Ch, b: Ch, c: Ch, d: Ch)
    requires 0xF0 <= a as int < 0xF5 && IsTail(b) && IsTail(c) && IsTail(d)
    ensures var code := (a as int - 0xF0) * 262144 + Tail(b) * 4096 + Tail(c) * 64 + Tail(d);
      0x10000 <= code < 0x110000 ==> Utf8(code) == [a, b, c, d]
  {
    var top := (a as int - 0xF0) * 64 + Tail(b);
    var high := top * 64 + Tail(c);
    LastDigit(a as int - 0xF0, Tail(b));
    LastDigit(top, Tail(c));
    LastDigit(high, Tail(d));
    assert (a as int - 0xF0) * 262144 + Tail(b) * 4096 + Tail(c) * 64 + Tail(d) == high * 64 + Tail(d);
  }

  lemma LastDigit(a: nat, b: nat)
    requires b < 64
    ensures (a * 64 + b) / 64 == a && (a * 64 + b) % 64 == b
  {
  }

  lemma Base64Digits(code: nat)
    ensures code == code / 64 * 64 + code % 64
    ensures code / 64 == code / 64 / 64 * 64 + code / 64 % 64
    ensures code / 64 / 64 == code / 64 / 64 / 64 * 64 + code / 64 / 64 % 64
  {
  }

  // ----- references

  /** Table `digits`: hexadecimal digits, in decimal references too; 255 ends the number. */
  function Digit(c: Ch): (d: nat)
    ensures d < 16 || d == 255
  {
    if '0' <= c <= '9' then c as int - '0' as int
    else if 'A' <= c <= 'F' then c as int - 'A' as int + 10
    else if 'a' <= c <= 'f' then c as int - 'a' as int + 10
    else 255
  }

  /** Reads digits from p on; returns the number and the position of the first other character. */
  function Number(s: Str, p: nat, base: nat, acc: nat): (r: (nat, nat))
    requires Terminated(s) && p < |s|
    ensures p <= r.1 < |s|
    decreases |s| - p
  {
    if Digit(s[p]) == 255 then (acc, p) else Number(s, p + 1, base, acc * base + Digit(s[p]))
  }

  datatype Ref = NoRef | Named(c: Ch, end: nat) | Numeric(code: nat, end: nat)

  function At(s: Str, i: nat): Ch { if i < |s| then s[i] else NUL }

  /** The reference that starts at p; `end` is where the name ends or the digits stop. */
  function RefAt(s: Str, p: nat): (r: Ref)
    requires Terminated(s) && p < |s|
    ensures r.Named? ==> p < r.end < |s|
    ensures r.Numeric? ==> p + 2 <= r.end < |s|
  {
    if s[p] != '&' then NoRef
    else if At(s, p + 1) == 'a' && At(s, p + 2) == 'm' && At(s, p + 3) == 'p' && At(s, p + 4) == ';' then
      Named('&', p + 5)
    else if At(s, p + 1) == 'a' && At(s, p + 2) == 'p' && At(s, p + 3) == 'o' && At(s, p + 4) == 's' &&
      At(s, p + 5) == ';' then
      Named('\'', p + 6)
    else if At(s, p + 1) == 'q' && At(s, p + 2) == 'u' && At(s, p + 3) == 'o' && At(s, p + 4) == 't' &&
      At(s, p + 5) == ';' then
      Named('"', p + 6)
    else if At(s, p + 1) == 'g' && At(s, p + 2) == 't' && At(s, p + 3) == ';' then Named('>', p + 4)
    else if At(s, p + 1) == 'l' && At(s, p + 2) == 't' && At(s, p + 3) == ';' then Named('<', p + 4)
    else if At(s, p + 1) == '#' && At(s, p + 2) == 'x' then
      var (code, q) := Number(s, p + 3, 16, 0);
      Numeric(code, q)
    else if At(s, p + 1) == '#' then
      var (code, q) := Number(s, p + 2, 10, 0);
      Numeric(code, q)
    else NoRef
  }

  datatype Step = Copy(out: Str, next: nat) | Bad(message: string)

  /** One round of the translation loop at a character that is not the end of the text. */
  function StepAt(s: Str, p: nat): (r: Step)
    requires Terminated(s) && p < |s| - 1
    ensures r.Copy? ==> p < r.next < |s|
  {
    match RefAt(s, p)
    case NoRef => Copy([s[p]], p + 1)
    case Named(c, end) => Copy([c], end)
    case Numeric(code, end) =>
      if code >= 0x110000 then Bad("invalid numeric character entity")
      else if s[end] != ';' then Bad("expected ;")
      else Copy(Utf8(code), end + 1)
  }

  /** The text from p up to the stop character or NUL with every reference expanded, appended to
      acc, and the position of that character. */
  function Expand(s: Str, p: nat, stop: Ch, acc: Str := []): (r: Result<(Str, nat)>)
    requires Terminated(s) && p < |s|
    ensures r.Ok? ==> p <= r.value.1 < |s| && (s[r.value.1] == stop || s[r.value.1] == NUL)
    ensures r.Ok? && s[p] != stop && s[p] != NUL ==> p < r.value.1
    decreases |s| - p
  {
    if s[p] == stop || s[p] == NUL then Ok((acc, p))
    else
      match StepAt(s, p)
      case Bad(message) => Err(message)
      case Copy(out, next) => Expand(s, next, stop, acc + out)
  }

  function Pow16(k: nat): nat { if k == 0 then 1 else 16 * Pow16(k - 1) }

  lemma {:induction false} NumberBound(s: Str, p: nat, base: nat, acc: nat, k: nat)
    requires Terminated(s) && p < |s| && base <= 16 && acc < Pow16(k)
    ensures var (code, q) := Number(s, p, base, acc); code < Pow16(k + (q - p))
    decreases |s| - p
  {
    if Digit(s[p]) != 255 {
      assert acc * base <= acc * 16;
      NumberBound(s, p + 1, base, acc * base + Digit(s[p]), k + 1);
    }
  }

  /** A numeric reference is never shorter than the bytes it is replaced by. */
  lemma NumericFits(s: Str, p: nat)
    requires Terminated(s) && p < |s| && RefAt(s, p).Numeric? && RefAt(s, p).code < 0x110000
    ensures p + |Utf8(RefAt(s, p).code)| <= RefAt(s, p).end
  {
    var r := RefAt(s, p);
    var start, base := if s[p + 2] == 'x' then p + 3 else p + 2, if s[p + 2] == 'x' then 16 else 10;
    assert (r.code, r.end) == Number(s, start, base, 0);
    NumberBound(s, start, base, 0, 0);
    DigitsCover(r.code, r.end - start);
  }

  lemma DigitsCover(code: nat, k: nat)
    requires code < Pow16(k) && code < 0x110000
    ensures |Utf8(code)| <= k + 1
  {
    assert Pow16(1) == 16;
    assert Pow16(2) == 256;
    assert Pow16(3) == 4096;
    assert Pow16(4) == 65536;
  }

  // ----- the printer's escaping and its inverse

  function EscapeChar(c: Ch, noexpand: Ch): (e: Str)
    ensures |e| > 0
  {
    if c == noexpand then [c]
    else match c
      case '<' => "&lt;"
      case '>' => "&gt;"
      case '\'' => "&apos;"
      case '"' => "&quot;"
      case '&' => "&amp;"
      case _ => [c]
  }

  function Escape(s: Str, noexpand: Ch): (e: Str)
    ensures s != [] ==> e != []
  {
    if s == [] then [] else EscapeChar(s[0], noexpand) + Escape(s[1..], noexpand)
  }

  lemma StepOfEscape(s: Str, p: nat, c: Ch, noexpand: Ch)
    requires Terminated(s) && p < |s| - 1 && HasAt(s, p, EscapeChar(c, noexpand))
    requires c != NUL && noexpand != '&'
    ensures StepAt(s, p) == Copy([c], p + |EscapeChar(c, noexpand)|)
  {
    var e := EscapeChar(c, noexpand);
    assert s[p..p + |e|] == e;
    assert forall i :: 0 <= i < |e| ==> s[p + i] == e[i] by {
      forall i | 0 <= i < |e| ensures s[p + i] == e[i] { HasAtIndex(s, p, e, i); }
    }
    if e != [c] {
      assert s[p] == '&' && s[p + 1] == e[1] && s[p + 2] == e[2] && s[p + 3] == e[3];
      if |e| > 4 { assert s[p + 4] == e[4]; }
      if |e| > 5 { assert s[p + 5] == e[5]; }
    }
  }

  lemma ExpandOneEscape(s: Str, p: nat, c: Ch, noexpand: Ch, stop: Ch, acc: Str)
    requires Terminated(s) && p < |s| && HasAt(s, p, EscapeChar(c, noexpand))
    requires c != NUL && noexpand != '&' && stop !in EscapeChar(c, noexpand)
    ensures p + |EscapeChar(c, noexpand)| < |s|
    ensures Expand(s, p, stop, acc) == Expand(s, p + |EscapeChar(c, noexpand)|, stop, acc + [c])
  {
    var e := EscapeChar(c, noexpand);
    HasAtIndex(s, p, e, 0);
    HasAtIndex(s, p, e, |e| - 1);
    StepOfEscape(s, p, c, noexpand);
  }

  lemma SplitAt(s: Str, p: nat, a: Str, b: Str, stop: Ch)
    requires HasAt(s, p, a + b) && stop !in a + b && |a| > 0
    ensures HasAt(s, p, a) && HasAt(s, p + |a|, b)
    ensures stop !in a && stop !in b && s[p] == a[0]
  {
    HasAtConcat(s, p, a, b);
    HasAtIndex(s, p, a, 0);
    NotInParts(a, b, stop);
  }

  lemma ExpandEscapedNothing(s: Str, p: nat, t: Str, noexpand: Ch, stop: Ch, acc: Str)
    requires Terminated(s) && p < |s| && (s[p] == stop || s[p] == NUL) && t == []
    ensures Expand(s, p, stop, acc) == Ok((acc + t, p + |Escape(t, noexpand)|))
  {
    assert acc + t == acc;
  }

  lemma EscapeCons(t: Str, noexpand: Ch) returns (e: Str, rest: Str)
    requires t != []
    ensures e == EscapeChar(t[0], noexpand) && rest == Escape(t[1..], noexpand)
    ensures Escape(t, noexpand) == e + rest
  {
    e, rest := EscapeChar(t[0], noexpand), Escape(t[1..], noexpand);
  }

  lemma AppendFirst(acc: Str, t: Str)
    requires t != [] && NulFree(t)
    ensures acc + [t[0]] + t[1..] == acc + t
    ensures t[0] != NUL && NulFree(t[1..])
  {
  }

  /** Expanding escaped NUL-free text returns the text and stops right behind it. */
  lemma {:induction false} ExpandEscaped(s: Str, p: nat, t: Str, noexpand: Ch, stop: Ch, acc: Str)
    requires Terminated(s) && NulFree(t) && noexpand != '&' && stop !in Escape(t, noexpand)
    requires HasAt(s, p, Escape(t, noexpand)) && p + |Escape(t, noexpand)| < |s|
    requires p + |Escape(t, noexpand)| < |s|
    requires s[p + |Escape(t, noexpand)|] == stop || s[p + |Escape(t, noexpand)|] == NUL
    ensures Expand(s, p, stop, acc) == Ok((acc + t, p + |Escape(t, noexpand)|))
    decreases |t|
  {
    hide Expand, StepAt, RefAt, EscapeChar, HasAt;
    if t == [] {
      ExpandEscapedNothing(s, p, t, noexpand, stop, acc);
    } else {
      var e, rest := EscapeCons(t, noexpand);
      SplitAt(s, p, e, rest, stop);
      AppendFirst(acc, t);
      ExpandOneEscape(s, p, t[0], noexpand, stop, acc);
      ExpandEscaped(s, p + |e|, t[1..], noexpand, stop, acc + [t[0]]);
    }
  }

  lemma {:induction false} EscapeConcat(a: Str, b: Str, noexpand: Ch)
    ensures Escape(a + b, noexpand) == Escape(a, noexpand) + Escape(b, noexpand)
  {
    if a == [] {
      assert a + b == b;
    } else {
      assert (a + b)[1..] == a[1..] + b;
      EscapeConcat(a[1..], b, noexpand);
    }
  }

  lemma {:induction false} FirstNul(t: Str) returns (k: nat)
    requires !NulFree(t)
    ensures k < |t| && t[k] == NUL && NulFree(t[..k])
  {
    if t[0] == NUL {
      k := 0;
    } else {
      k := FirstNul(t[1..]);
      k := k + 1;
      assert t[..k] == [t[0]] + t[1..][..k - 1];
    }
  }

  lemma EscapedNul(s: Str, p: nat, t: Str, k: nat, noexpand: Ch, stop: Ch)
    requires HasAt(s, p, Escape(t, noexpand)) && stop !in Escape(t, noexpand)
    requires k < |t| && t[k] == NUL && p + |Escape(t, noexpand)| < |s|
    ensures HasAt(s, p, Escape(t[..k], noexpand)) && stop !in Escape(t[..k], noexpand)
    ensures p + |Escape(t[..k], noexpand)| < |s| && s[p + |Escape(t[..k], noexpand)|] == NUL
  {
    hide HasAt, Escape;
    var a := Escape(t[..k], noexpand);
    assert t == t[..k] + t[k..];
    EscapeConcat(t[..k], t[k..], noexpand);
    var e, rest := EscapeCons(t[k..], noexpand);
    NotInParts(a, e + rest, stop);
    HasAtConcat(s, p, a, e + rest);
    HasAtIndex(s, p + |a|, e + rest, 0);
  }

  /** So escaped text comes back whole exactly when it holds no NUL. */
  lemma EscapeRoundTrip(s: Str, p: nat, t: Str, noexpand: Ch, stop: Ch)
    requires Terminated(s) && noexpand != '&' && stop !in Escape(t, noexpand)
    requires HasAt(s, p, Escape(t, noexpand)) && p + |Escape(t, noexpand)| < |s|
    requires s[p + |Escape(t, noexpand)|] == stop || s[p + |Escape(t, noexpand)|] == NUL
    ensures Expand(s, p, stop) == Ok((t, p + |Escape(t, noexpand)|)) <==> NulFree(t)
  {
    hide Expand, StepAt, RefAt, EscapeChar, HasAt;
    if NulFree(t) {
      ExpandEscaped(s, p, t, noexpand, stop, []);
      assert [] + t == t;
    } else {
      var k := FirstNul(t);
      EscapedNul(s, p, t, k, noexpand, stop);
      ExpandEscaped(s, p, t[..k], noexpand, stop, []);
    }
  }

  lemma NotInParts(a: Str, b: Str, c: Ch)
    requires c !in a + b
    ensures c !in a && c !in b
  {
    forall x | x in a || x in b ensures x in a + b { }
  }

  /** Quotes an attribute value the way print_attributes does. */
  function QuoteFor(value: Str): (q: (Ch, Ch)) {
    if '"' in value then ('\'', '"') else ('"', '\'')
  }

  /** The chosen quote never occurs inside the printed value, and neither does `<` in printed data. */
  lemma {:induction false} QuoteNotInside(value: Str, quote: Ch, noexpand: Ch)
    requires
      || (quote, noexpand) == ('\'', '"')
      || (quote == '"' && noexpand == '\'' && '"' !in value)
      || (quote == '<' && noexpand == NUL)
    ensures quote !in Escape(value, noexpand)
  {
    if value != [] {
      QuoteNotInside(value[1..], quote, noexpand);
      assert quote !in EscapeChar(value[0], noexpand);
    }
  }
}
