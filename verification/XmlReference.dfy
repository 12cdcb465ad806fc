/** What numeric character references stand for: digits written by division are read back as the same code. */
module XmlReferences {
  import opened XmlText

  const LOWER_DIGITS: Str := "0123456789abcdef"
  const UPPER_DIGITS: Str := "0123456789ABCDEF"

  /** t is the code in this base, after any zeros, with letters in either case. */
  predicate Spells(t: Str, code: nat, base: nat)
    requires base in {10, 16}
  {
    && t != []
    && t[|t| - 1] in {LOWER_DIGITS[code % base], UPPER_DIGITS[code % base]}
    && if |t| == 1 then code < base else Spells(t[..|t| - 1], code / base, base)
  }

  /** The code in digits, without zeros in front. */
  function Digits(code: nat, base: nat): Str
    requires base in {10, 16}
  {
    if code < base then [LOWER_DIGITS[code]]
    else Shrinks(code, base); Digits(code / base, base) + [LOWER_DIGITS[code % base]]
  }

  lemma Shrinks(code: nat, base: nat)
    requires base in {10, 16} && base <= code
    ensures 0 < code / base < code
  {
    if base == 10 { assert 0 < code / 10 < code; } else { assert 0 < code / 16 < code; }
  }

  lemma {:induction false} DigitsSpell(code: nat, base: nat)
    requires base in {10, 16}
    ensures Spells(Digits(code, base), code, base)
  {
    if code >= base {
      Shrinks(code, base);
      DigitsSpell(code / base, base);
      var t := Digits(code / base, base);
      assert (t + [LOWER_DIGITS[code % base]])[..|t|] == t;
    }
  }

  /** A decimal reference, or a hexadecimal one. */
  function Reference(t: Str, hex: bool): Str {
    (if hex then "&#x" else "&#") + t + ";"
  }

  lemma DigitRead(d: nat)
    requires d < 16
    ensures Digit(LOWER_DIGITS[d]) == Digit(UPPER_DIGITS[d]) == d
  {
  }

  lemma {:induction false} NumberRead(s: Str, p: nat, t: Str, code: nat, base: nat)
    requires Terminated(s) && base in {10, 16} && Spells(t, code, base) && HasAt(s, p, t) && p + |t| < |s|
    ensures Number(s, p, base, 0) == Number(s, p + |t|, base, code)
    decreases |t|
  {
    hide Digit, HasAt;
    var n := |t| - 1;
    HasAtIndex(s, p, t, n);
    DigitRead(code % base);
    if n > 0 {
      assert t == t[..n] + [t[n]];
      HasAtConcat(s, p, t[..n], [t[n]]);
      NumberRead(s, p, t[..n], code / base, base);
      Recomposed(code, base);
    }
  }

  lemma Recomposed(code: nat, base: nat)
    requires base > 0
    ensures code / base * base + code % base == code
  {
  }

  lemma ReferenceRead(s: Str, p: nat, t: Str, code: nat, hex: bool)
    requires Terminated(s) && Spells(t, code, if hex then 16 else 10) && HasAt(s, p, Reference(t, hex))
    ensures var end := p + |Reference(t, hex)| - 1;
      end + 1 < |s| && s[p] == '&' && s[end] == ';' && RefAt(s, p) == Numeric(code, end)
  {
    hide Number, HasAt;
    var lead, base := if hex then "&#x" else "&#", if hex then 16 else 10;
    var start := p + |lead|;
    HasAtConcat(s, p, lead + t, ";");
    HasAtConcat(s, p, lead, t);
    LastNotNul(s, start + |t|, ";");
    HasAtIndex(s, start + |t|, ";", 0);
    HasAtIndex(s, p, lead, 0);
    HasAtIndex(s, p, lead, 1);
    if hex { HasAtIndex(s, p, lead, 2); }
    HasAtIndex(s, start, t, 0);
    FirstIsNoX(t, code, base);
    NumberRead(s, start, t, code, base);
    NumberStops(s, start + |t|, base, code);
  }

  lemma NumberStops(s: Str, p: nat, base: nat, code: nat)
    requires Terminated(s) && p < |s| && s[p] == ';'
    ensures Number(s, p, base, code) == (code, p)
  {
  }

  lemma {:induction false} FirstIsNoX(t: Str, code: nat, base: nat)
    requires base in {10, 16} && Spells(t, code, base)
    ensures t[0] != 'x'
    decreases |t|
  {
    if |t| > 1 { FirstIsNoX(t[..|t| - 1], code / base, base); }
  }

  /** A numeric reference expands to the UTF-8 bytes of its code, from any output on, or is refused as no code. */
  lemma ExpandReference(s: Str, p: nat, t: Str, code: nat, hex: bool, stop: Ch, acc: Str)
    requires Terminated(s) && Spells(t, code, if hex then 16 else 10) && HasAt(s, p, Reference(t, hex)) && stop != '&'
    ensures p + |Reference(t, hex)| < |s|
    ensures Expand(s, p, stop, acc) ==
      if code >= 0x110000 then Err("invalid numeric character entity")
      else Expand(s, p + |Reference(t, hex)|, stop, acc + Utf8(code))
  {
    hide RefAt, Utf8, HasAt, Spells, Reference;
    ReferenceRead(s, p, t, code, hex);
  }

  /** Every code below 0x110000 but the surrogates, written in either base, expands to bytes that decode to it as
      UTF-8, and expansion stops behind the semicolon. */
  lemma NumericRoundTrip(t: Str, code: nat, hex: bool)
    requires Spells(t, code, if hex then 16 else 10)
    ensures var text := Reference(t, hex); var r := Expand(text + [NUL], 0, '<');
      if code >= 0x110000 then r == Err("invalid numeric character entity")
      else
        && r.Ok? && r.value.1 == |text|
        && (code < 0xD800 || 0xE000 <= code ==> DecodeUtf8(r.value.0) == Ok((code, |r.value.0|)))
  {
    hide Expand, Utf8, DecodeUtf8, Spells, Reference;
    var text := Reference(t, hex);
    var s := text + [NUL];
    assert s[0..0 + |text|] == text;
    ExpandReference(s, 0, t, code, hex, '<', []);
    if code < 0x110000 {
      NothingMore(s, |text|, '<', [] + Utf8(code));
      Utf8RoundTrip(code, []);
      assert [] + Utf8(code) == Utf8(code) + [] == Utf8(code);
    }
  }

  lemma NothingMore(s: Str, p: nat, stop: Ch, acc: Str)
    requires Terminated(s) && p == |s| - 1
    ensures Expand(s, p, stop, acc) == Ok((acc, p))
  {
  }

  /** Decimal references take hexadecimal digits too: 1F stands for 25. */
  lemma LettersInDecimal()
    ensures RefAt("&#1F;" + [NUL], 0) == Numeric(25, 4)
  {
    var s := "&#1F;" + [NUL];
    assert Number(s, 4, 10, 25) == (25, 4);
    assert Number(s, 3, 10, 1) == (25, 4);
    assert Number(s, 2, 10, 0) == (25, 4);
  }
}
