/** In-place reference expansion: the write cursor `dest` runs behind the read cursor `src` in the
    same buffer. `s` is the ghost copy of the text the buffer held before the call. */
module XmlExpander {
  import opened XmlText

  /** From position p on, the buffer still holds the original text. */
  ghost predicate Unread(buf: array<Ch>, p: nat, s: Str)
    reads buf
  {
    buf.Length == |s| && p <= |s| && forall i :: p <= i < |s| ==> buf[i] == s[i]
  }

  /** Before position p, the buffer holds what it held in s. */
  ghost predicate Kept(buf: array<Ch>, p: nat, s: Str)
    reads buf
  {
    buf.Length == |s| && p <= |s| && forall i :: 0 <= i < p ==> buf[i] == s[i]
  }

  /** The buffer holds t at position p. */
  ghost predicate Holds(buf: array<Ch>, p: nat, t: Str)
    reads buf
  {
    p + |t| <= buf.Length && forall k :: 0 <= k < |t| ==> buf[p + k] == t[k]
  }

  /** Reads the digits of a numeric reference. */
  method ReadNumber(buf: array<Ch>, start: nat, base: nat, ghost s: Str) returns (code: nat, src: nat)
    requires Terminated(s) && start < |s| && Unread(buf, start, s)
    ensures (code, src) == Number(s, start, base, 0)
  {
    code, src := 0, start;
    var digit := Digit(buf[src]);
    while digit != 0xFF
      invariant start <= src < |s| && digit == Digit(s[src])
      invariant Number(s, start, base, 0) == Number(s, src, base, code)
      decreases |s| - src
    {
      code := code * base + digit;
      src := src + 1;
      digit := Digit(buf[src]);
    }
  }

  /** Recognises the reference at src. Every character is read only after the one before it was
      found to be part of a reference, so no read passes the terminating NUL. */
  method ReadReference(buf: array<Ch>, src: nat, ghost s: Str) returns (r: Ref)
    requires Terminated(s) && src < |s| && Unread(buf, src, s)
    ensures r == RefAt(s, src)
  {
    hide Number;
    assert forall i :: src <= i < |s| ==> buf[i] == s[i];
    if buf[src] == '&' {
      if buf[src + 1] == 'a' {
        if buf[src + 2] == 'm' && buf[src + 3] == 'p' && buf[src + 4] == ';' {
          return Named('&', src + 5);
        }
        if buf[src + 2] == 'p' && buf[src + 3] == 'o' && buf[src + 4] == 's' && buf[src + 5] == ';' {
          return Named('\'', src + 6);
        }
      } else if buf[src + 1] == 'q' {
        if buf[src + 2] == 'u' && buf[src + 3] == 'o' && buf[src + 4] == 't' && buf[src + 5] == ';' {
          return Named('"', src + 6);
        }
      } else if buf[src + 1] == 'g' {
        if buf[src + 2] == 't' && buf[src + 3] == ';' {
          return Named('>', src + 4);
        }
      } else if buf[src + 1] == 'l' {
        if buf[src + 2] == 't' && buf[src + 3] == ';' {
          return Named('<', src + 4);
        }
      } else if buf[src + 1] == '#' {
        var code, end;
        if buf[src + 2] == 'x' {
          code, end := ReadNumber(buf, src + 3, 16, s);
        } else {
          code, end := ReadNumber(buf, src + 2, 10, s);
        }
        return Numeric(code, end);
      }
    }
    r := NoRef;
  }

  /** Writes the UTF-8 bytes of a code point from the last to the first, six bits at a time. */
  method InsertCodedCharacter(buf: array<Ch>, text: nat, code: nat) returns (r: Result<nat>)
    requires code < 0x110000 ==> text + |Utf8(code)| <= buf.Length
    modifies buf
    ensures code >= 0x110000 ==> r == Err("invalid numeric character entity") && buf[..] == old(buf[..])
    ensures code < 0x110000 ==> r == Ok(text + |Utf8(code)|)
    ensures code < 0x110000 ==> Holds(buf, text, Utf8(code))
    ensures code < 0x110000 ==> Kept(buf, text, old(buf[..])) && Unread(buf, text + |Utf8(code)|, old(buf[..]))
  {
    hide BitOr, BitAnd;
    if code < 0x80 {
      buf[text] := code as char;
      r := Ok(text + 1);
    } else if code < 0x800 {
      buf[text + 1] := TailChar(code);
      buf[text] := LeadChar(code / 64, 0xC0);
      r := Ok(text + 2);
    } else if code < 0x10000 {
      buf[text + 2] := TailChar(code);
      buf[text + 1] := TailChar(code / 64);
      buf[text] := LeadChar(code / 64 / 64, 0xE0);
      r := Ok(text + 3);
    } else if code < 0x110000 {
      buf[text + 3] := TailChar(code);
      buf[text + 2] := TailChar(code / 64);
      buf[text + 1] := TailChar(code / 64 / 64);
      buf[text] := LeadChar(code / 64 / 64 / 64, 0xF0);
      r := Ok(text + 4);
    } else {
      r := Err("invalid numeric character entity");
    }
  }

  /** One round of the translation loop: replaces the reference at src, or copies one character. */
  method TranslateOne(buf: array<Ch>, dest: nat, src: nat, ghost s: Str) returns (r: Result<nat>, next: nat)
    requires Terminated(s) && dest <= src < |s| - 1 && Unread(buf, src, s)
    modifies buf
    ensures match StepAt(s, src)
            case Copy(out, p) => next == p && r == Ok(dest + |out|) && dest + |out| <= next && Holds(buf, dest, out)
            case Bad(message) => r == Err(message)
    ensures src <= next <= |s| && Unread(buf, next, s) && Kept(buf, dest, old(buf[..]))
  {
    hide Number, Utf8;
    var ref := ReadReference(buf, src, s);
    match ref {
      case NoRef =>
        buf[dest] := buf[src];
        r, next := Ok(dest + 1), src + 1;
      case Named(c, end) =>
        buf[dest] := c;
        r, next := Ok(dest + 1), end;
      case Numeric(code, end) =>
        if code < 0x110000 { NumericFits(s, src); }
        r := InsertCodedCharacter(buf, dest, code);
        next := end;
        if r.Ok? {
          if buf[next] == ';' {
            next := next + 1;
          } else {
            r := Err("expected ;");
          }
        }
    }
  }

  /** Skips to the first character that is not copied unchanged. */
  method SkipPlain(buf: array<Ch>, text: nat, stop: Ch, ghost s: Str) returns (src: nat)
    requires Terminated(s) && text < |s| && Unread(buf, text, s)
    ensures text <= src < buf.Length
    ensures Expand(s, text, stop) == Expand(s, src, stop, s[text..src])
  {
    hide StepAt;
    src := text;
    assert s[text..src] == [];
    while buf[src] != stop && buf[src] != NUL && buf[src] != '&'
      invariant text <= src < |s|
      invariant Expand(s, text, stop) == Expand(s, src, stop, s[text..src])
      decreases |s| - src
    {
      PlainStep(s, src);
      assert s[text..src] + [s[src]] == s[text..src + 1];
      src := src + 1;
    }
  }

  /** Replaces every reference between text and the stop character in place. On success the
      expansion lies in [text, r.value), reading stopped at `next`, and the text from `next` on is
      untouched; the write cursor never overtakes the read cursor. */
  method SkipAndExpand(buf: array<Ch>, text: nat, stop: Ch, ghost s: Str) returns (r: Result<nat>, next: nat)
    requires Terminated(s) && text < |s| && Unread(buf, text, s)
    modifies buf
    ensures match Expand(s, text, stop)
            case Ok((out, p)) => next == p && r == Ok(text + |out|) && text + |out| <= next && Holds(buf, text, out)
            case Err(message) => r == Err(message)
    ensures text <= next && Unread(buf, next, s) && Kept(buf, text, old(buf[..]))
  {
    hide StepAt;
    var src := SkipPlain(buf, text, stop, s);
    var dest := src;
    ghost var out := s[text..dest];
    while buf[src] != stop && buf[src] != NUL
      invariant text <= dest <= src < |s| && |out| == dest - text
      invariant Unread(buf, src, s) && Kept(buf, text, old(buf[..])) && Holds(buf, text, out)
      invariant Expand(s, text, stop) == Expand(s, src, stop, out)
      decreases |s| - src
    {
      var one, next := TranslateOne(buf, dest, src, s);
      if one.Err? {
        return one, next;
      }
      ghost var piece := StepAt(s, src).out;
      HoldsBoth(buf, text, out, piece);
      out := out + piece;
      dest, src := one.value, next;
    }
    return Ok(dest), src;
  }

  lemma HoldsBoth(buf: array<Ch>, p: nat, a: Str, b: Str)
    requires Holds(buf, p, a) && Holds(buf, p + |a|, b)
    ensures Holds(buf, p, a + b)
  {
    forall k | 0 <= k < |a + b| ensures buf[p + k] == (a + b)[k] {
      if k >= |a| { assert buf[p + |a| + (k - |a|)] == b[k - |a|]; }
    }
  }

  lemma PlainStep(s: Str, p: nat)
    requires Terminated(s) && p < |s| - 1 && s[p] != '&'
    ensures StepAt(s, p) == Copy([s[p]], p + 1)
  {
  }
}
