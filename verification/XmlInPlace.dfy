/** The destructive parser: it expands references and places string terminators inside the buffer
    it reads, and its nodes point into that buffer. It is proved to build the tree that the
    functional parser finds in the original text, and every slice still reads as its string when
    parsing ends. In every method `s` is the ghost copy of the original text. */
module XmlInPlace {
  import opened XmlText
  import opened Wrappers
  import opened XmlParser
  import opened XmlExpander

  /** A pointer into the buffer and a size. */
  datatype Slice = Slice(start: nat, len: nat)

  datatype RawNode =
    | RawElement(name: Slice, children: seq<RawNode>)
    | RawData(value: Slice)
    | RawCData(value: Slice)
    | RawComment(value: Slice)
    | RawDoctype(value: Slice)
    | RawPi(name: Slice, value: Slice)
    | RawDeclaration

  /** The slice lies in [lo, hi) and reads as t. */
  ghost predicate Reads(b: Str, slice: Slice, t: Str, lo: nat, hi: nat) {
    && lo <= slice.start && slice.start + slice.len <= hi <= |b|
    && slice.len == |t|
    && forall k :: 0 <= k < |t| ==> b[slice.start + k] == t[k]
  }

  /** With terminators on, NUL is behind the slice and also before hi. */
  ghost predicate Ends(b: Str, slice: Slice, hi: nat, flags: Flags) {
    !flags.noTerminators ==> slice.start + slice.len < hi <= |b| && b[slice.start + slice.len] == NUL
  }

  ghost predicate ReadsString(b: Str, slice: Slice, t: Str, lo: nat, hi: nat, flags: Flags) {
    Reads(b, slice, t, lo, hi) && Ends(b, slice, hi, flags)
  }

  /** The raw node, all of whose strings lie in [lo, hi), stands for n. */
  ghost predicate Stores(b: Str, raw: RawNode, n: Node, lo: nat, hi: nat, flags: Flags) {
    match raw
    case RawElement(name, children) =>
      && n.Element? && n.attrs == [] && ReadsString(b, name, n.name, lo, hi, flags)
      && StoresAll(b, children, n.children, lo, hi, flags)
    case RawData(value) => n.Data? && ReadsString(b, value, n.value, lo, hi, flags)
    case RawCData(value) => n.CData? && ReadsString(b, value, n.value, lo, hi, flags)
    case RawComment(value) => n.Comment? && ReadsString(b, value, n.value, lo, hi, flags)
    case RawDoctype(value) => n.Doctype? && ReadsString(b, value, n.value, lo, hi, flags)
    case RawPi(name, value) =>
      n.Pi? && ReadsString(b, name, n.name, lo, hi, flags) && ReadsString(b, value, n.value, lo, hi, flags)
    case RawDeclaration => n == Declaration([])
  }

  ghost predicate StoresAll(b: Str, raws: seq<RawNode>, ns: seq<Node>, lo: nat, hi: nat, flags: Flags) {
    |raws| == |ns| && forall i :: 0 <= i < |raws| ==> Stores(b, raws[i], ns[i], lo, hi, flags)
  }

  ghost predicate StoresOption(b: Str, raw: Option<RawNode>, n: Option<Node>, lo: nat, hi: nat, flags: Flags) {
    raw.Some? == n.Some? && (raw.Some? ==> Stores(b, raw.value, n.value, lo, hi, flags))
  }

  /** Nothing in [lo, hi) changed from b to c. */
  ghost predicate Agree(b: Str, c: Str, lo: nat, hi: nat) {
    |b| == |c| && hi <= |b| && forall i :: lo <= i < hi ==> b[i] == c[i]
  }

  /** A stored node and its terminators outlive every write outside its region. */
  lemma {:induction false} StoresFrame(b: Str, c: Str, raw: RawNode, n: Node, lo: nat, hi: nat, lo': nat, hi': nat,
      flags: Flags)
    requires Stores(b, raw, n, lo, hi, flags) && Agree(b, c, lo, hi) && lo' <= lo && hi <= hi' <= |c|
    ensures Stores(c, raw, n, lo', hi', flags)
    decreases raw
  {
    if raw.RawElement? {
      forall i | 0 <= i < |raw.children| ensures Stores(c, raw.children[i], n.children[i], lo', hi', flags) {
        StoresFrame(b, c, raw.children[i], n.children[i], lo, hi, lo', hi', flags);
      }
    }
  }

  lemma StoresAllFrame(b: Str, c: Str, raws: seq<RawNode>, ns: seq<Node>, lo: nat, hi: nat, lo': nat, hi': nat,
      flags: Flags)
    requires StoresAll(b, raws, ns, lo, hi, flags) && Agree(b, c, lo, hi) && lo' <= lo && hi <= hi' <= |c|
    ensures StoresAll(c, raws, ns, lo', hi', flags)
  {
    forall i | 0 <= i < |raws| ensures Stores(c, raws[i], ns[i], lo', hi', flags) {
      StoresFrame(b, c, raws[i], ns[i], lo, hi, lo', hi', flags);
    }
  }

  // ----- reading

  method SkipBuffer(buf: array<Ch>, p: nat, k: Class, ghost s: Str) returns (q: nat)
    requires Terminated(s) && p < |s| && Unread(buf, p, s)
    ensures q == Skip(s, p, k)
  {
    q := p;
    while InClass(k, buf[q])
      invariant p <= q < |s| && Skip(s, p, k) == Skip(s, q, k)
      decreases |s| - q
    {
      q := q + 1;
    }
  }

  /** Compares the text with the marker one character after the other, up to the first difference. */
  method Ahead(buf: array<Ch>, p: nat, marker: Str, ghost s: Str) returns (yes: bool)
    requires Terminated(s) && p < |s| && Unread(buf, p, s) && NulFree(marker)
    ensures yes == HasAt(s, p, marker)
  {
    for i := 0 to |marker|
      invariant p + i < |s| && HasAt(s, p, marker[..i])
    {
      if buf[p + i] != marker[i] {
        if HasAt(s, p, marker) { HasAtIndex(s, p, marker, i); }
        return false;
      }
      assert marker[i] in marker;
      assert marker[..i + 1] == marker[..i] + [marker[i]];
      HasAtConcat(s, p, marker[..i], [marker[i]]);
    }
    assert marker[..|marker|] == marker;
    yes := true;
  }

  method ScanBuffer(buf: array<Ch>, p: nat, marker: Str, ghost s: Str) returns (r: Result<nat>)
    requires Terminated(s) && p < |s| && Unread(buf, p, s) && marker != [] && NulFree(marker)
    ensures r == Scan(s, p, marker)
  {
    hide HasAt;
    var q := p;
    var here := Ahead(buf, q, marker, s);
    while !here
      invariant p <= q < |s| && Scan(s, p, marker) == Scan(s, q, marker)
      invariant here == HasAt(s, q, marker)
      decreases |s| - q, !here
    {
      if buf[q] == NUL {
        return Err("unexpected end of data");
      }
      q := q + 1;
      here := Ahead(buf, q, marker, s);
    }
    r := Ok(q);
  }

  method DoctypeEndBuffer(buf: array<Ch>, p: nat, ghost s: Str) returns (r: Result<nat>)
    requires Terminated(s) && p < |s| && Unread(buf, p, s)
    ensures r == DoctypeEnd(s, p, 0)
  {
    var q := p;
    while buf[q] != '>'
      invariant p <= q < |s| && DoctypeEnd(s, p, 0) == DoctypeEnd(s, q, 0)
      decreases |s| - q
    {
      if buf[q] == '[' {
        var depth := 1;
        q := q + 1;
        while depth > 0
          invariant p < q < |s| && DoctypeEnd(s, p, 0) == DoctypeEnd(s, q, depth)
          decreases |s| - q, depth
        {
          if buf[q] == NUL {
            return Err("unexpected end of data");
          }
          depth := if buf[q] == '[' then depth + 1 else if buf[q] == ']' then depth - 1 else depth;
          q := q + 1;
        }
      } else if buf[q] == NUL {
        return Err("unexpected end of data");
      } else {
        q := q + 1;
      }
    }
    r := Ok(q);
  }

  // ----- parsing

  /** What every parsing method promises: the functional parser's verdict, nodes stored in the
      stretch it consumed, and a buffer that is unchanged before p and unread behind that stretch. */
  ghost predicate Refines(b0: Str, b: Str, s: Str, p: nat, spec: Parsed, r: Result<(Option<RawNode>, nat)>,
      flags: Flags) {
    && |b0| == |b| == |s|
    && Agree(b0, b, 0, p)
    && match spec
       case Err(message) => r == Err(message)
       case Ok((n, next)) =>
         && r.Ok? && r.value.1 == next && next <= |s|
         && StoresOption(b, r.value.0, n, p, next, flags) && Agree(b, s, next, |s|)
  }

  method PlaceTerminator(buf: array<Ch>, at: nat, flags: Flags)
    requires at < buf.Length
    modifies buf
    ensures Agree(old(buf[..]), buf[..], 0, at) && Agree(old(buf[..]), buf[..], at + 1, buf.Length)
    ensures buf[at] == if flags.noTerminators then old(buf[at]) else NUL
  {
    if !flags.noTerminators {
      buf[at] := NUL;
    }
  }

  method ReadComment(buf: array<Ch>, p: nat, flags: Flags, ghost s: Str) returns (r: Result<(Option<RawNode>, nat)>)
    requires Terminated(s) && p < |s| && Unread(buf, p, s)
    modifies buf
    ensures Refines(old(buf[..]), buf[..], s, p, ParseComment(s, p, flags), r, flags)
  {
    hide Scan;
    var end := ScanBuffer(buf, p, "-->", s);
    if end.Err? {
      return Err(end.message);
    }
    if !flags.comments {
      return Ok((None, end.value + 3));
    }
    PlaceTerminator(buf, end.value, flags);
    r := Ok((Some(RawComment(Slice(p, end.value - p))), end.value + 3));
  }

  method ReadCData(buf: array<Ch>, p: nat, flags: Flags, ghost s: Str) returns (r: Result<(Option<RawNode>, nat)>)
    requires Terminated(s) && p < |s| && Unread(buf, p, s)
    modifies buf
    ensures Refines(old(buf[..]), buf[..], s, p, ParseCData(s, p, flags), r, flags)
  {
    hide Scan;
    var end := ScanBuffer(buf, p, "]]>", s);
    if end.Err? {
      return Err(end.message);
    }
    if flags.noDataNodes {
      return Ok((None, end.value + 3));
    }
    PlaceTerminator(buf, end.value, flags);
    r := Ok((Some(RawCData(Slice(p, end.value - p))), end.value + 3));
  }

  method ReadDoctype(buf: array<Ch>, p: nat, flags: Flags, ghost s: Str) returns (r: Result<(Option<RawNode>, nat)>)
    requires Terminated(s) && p < |s| && Unread(buf, p, s)
    modifies buf
    ensures Refines(old(buf[..]), buf[..], s, p, ParseDoctype(s, p, flags), r, flags)
  {
    hide DoctypeEnd;
    var end := DoctypeEndBuffer(buf, p, s);
    if end.Err? {
      return Err(end.message);
    }
    if !flags.doctypes {
      return Ok((None, end.value + 1));
    }
    PlaceTerminator(buf, end.value, flags);
    r := Ok((Some(RawDoctype(Slice(p, end.value - p))), end.value + 1));
  }

  /** Places the terminators of a target and its value, in that order. */
  method TerminatePi(buf: array<Ch>, p: nat, nameEnd: nat, start: nat, end: nat, flags: Flags, ghost s: Str)
    requires p <= nameEnd <= start <= end < |s| && Unread(buf, p, s)
    modifies buf
    ensures Agree(old(buf[..]), buf[..], 0, nameEnd) && Agree(s, buf[..], end + 1, |s|)
    ensures ReadsString(buf[..], Slice(p, nameEnd - p), s[p..nameEnd], p, end + 1, flags)
    ensures ReadsString(
      buf[..], Slice(start, end - start), PiValue(s[start..end], nameEnd < start, flags), p, end + 1, flags)
  {
    PlaceTerminator(buf, nameEnd, flags);
    PlaceTerminator(buf, end, flags);
  }

  method ReadPi(buf: array<Ch>, p: nat, flags: Flags, ghost s: Str) returns (r: Result<(Option<RawNode>, nat)>)
    requires Terminated(s) && p < |s| && Unread(buf, p, s)
    modifies buf
    ensures Refines(old(buf[..]), buf[..], s, p, ParsePi(s, p, flags), r, flags)
  {
    hide Scan, Skip, ReadsString, PiValue;
    if flags.pis {
      var nameEnd := SkipBuffer(buf, p, NodeName, s);
      if nameEnd == p {
        return Err("expected PI target");
      }
      var start := SkipBuffer(buf, nameEnd, Space, s);
      var end := ScanBuffer(buf, start, "?>", s);
      if end.Err? {
        return Err(end.message);
      }
      TerminatePi(buf, p, nameEnd, start, end.value, flags, s);
      StringFrame(buf[..], buf[..], Slice(p, nameEnd - p), s[p..nameEnd], p, end.value + 1, p, end.value + 2, flags);
      StringFrame(buf[..], buf[..], Slice(start, end.value - start),
        PiValue(s[start..end.value], nameEnd < start, flags), p, end.value + 1, p, end.value + 2, flags);
      r := Ok((Some(RawPi(Slice(p, nameEnd - p), Slice(start, end.value - start))), end.value + 2));
    } else {
      var end := ScanBuffer(buf, p, "?>", s);
      if end.Err? {
        return Err(end.message);
      }
      r := Ok((None, end.value + 2));
    }
  }

  datatype RawAttribute = RawAttribute(name: Slice, value: Slice, next: nat)

  /** Reads a quoted value whose text starts at p: expands it and replaces its end by a terminator. */
  method ReadValue(buf: array<Ch>, p: nat, quote: Ch, flags: Flags, ghost s: Str) returns (r: Result<(nat, nat)>)
    requires Terminated(s) && p < |s| && Unread(buf, p, s) && quote != NUL
    modifies buf
    ensures Agree(old(buf[..]), buf[..], 0, p)
    ensures match Expand(s, p, quote)
            case Err(message) => r == Err(message)
            case Ok((out, stop)) =>
              if s[stop] != quote then r == Err("expected ' or \"")
              else r == Ok((p + |out|, stop + 1)) && Unread(buf, stop + 1, s)
                   && ReadsString(buf[..], Slice(p, |out|), out, p, stop + 1, flags)
  {
    hide Expand;
    var end, stop := SkipAndExpand(buf, p, quote, s);
    if end.Err? {
      return Err(end.message);
    }
    if buf[stop] != quote {
      return Err("expected ' or \"");
    }
    PlaceTerminator(buf, end.value, flags);
    r := Ok((end.value, stop + 1));
  }

  /** Reads an attribute up to the opening quote and puts the terminator behind its name. */
  method ReadAttributeHead(buf: array<Ch>, p: nat, flags: Flags, ghost s: Str) returns (r: Result<(nat, nat)>)
    requires Terminated(s) && p < |s| && IsAttributeName(s[p]) && Unread(buf, p, s)
    modifies buf
    ensures Agree(old(buf[..]), buf[..], 0, p)
    ensures r == AttributeHead(s, p)
    ensures r.Ok? ==>
      && ReadsString(buf[..], Slice(p, r.value.0 - p), s[p..r.value.0], p, r.value.0 + 1, flags)
      && Unread(buf, r.value.1, s)
  {
    hide Skip;
    var nameEnd := SkipBuffer(buf, p + 1, AttributeName, s);
    var eq := SkipBuffer(buf, nameEnd, Space, s);
    if buf[eq] != '=' {
      return Err("expected =");
    }
    PlaceTerminator(buf, nameEnd, flags);
    var q := SkipBuffer(buf, eq + 1, Space, s);
    if buf[q] != '\'' && buf[q] != '"' {
      return Err("expected ' or \"");
    }
    r := Ok((nameEnd, q));
  }

  /** Reads one attribute: its value is expanded in place and both strings get terminators. */
  method ReadAttribute(buf: array<Ch>, p: nat, flags: Flags, ghost s: Str) returns (r: Result<RawAttribute>)
    requires Terminated(s) && p < |s| && IsAttributeName(s[p]) && Unread(buf, p, s)
    modifies buf
    ensures Agree(old(buf[..]), buf[..], 0, p)
    ensures match ParseAttribute(s, p)
            case Err(message) => r == Err(message)
            case Ok(a) =>
              r.Ok? && r.value.next == a.next && Unread(buf, a.next, s)
              && ReadsString(buf[..], r.value.name, a.name, p, a.next, flags)
              && ReadsString(buf[..], r.value.value, a.value, p, a.next, flags)
  {
    hide Skip, Expand, ReadsString, AttributeHead;
    var head := ReadAttributeHead(buf, p, flags, s);
    if head.Err? {
      return Err(head.message);
    }
    var (nameEnd, q) := head.value;
    ghost var named := buf[..];
    var value := ReadValue(buf, q + 1, buf[q], flags, s);
    if value.Err? {
      return Err(value.message);
    }
    var (end, stop) := value.value;
    var next := SkipBuffer(buf, stop, Space, s);
    StringFrame(named, buf[..], Slice(p, nameEnd - p), s[p..nameEnd], p, nameEnd + 1, p, next, flags);
    StringFrame(buf[..], buf[..], Slice(q + 1, end - (q + 1)), Expand(s, q + 1, s[q]).value.0, q + 1, stop, p, next,
      flags);
    r := Ok(RawAttribute(Slice(p, nameEnd - p), Slice(q + 1, end - (q + 1)), next));
  }

  lemma ReadsFrame(b: Str, c: Str, slice: Slice, t: Str, lo: nat, hi: nat, lo': nat, hi': nat)
    requires Reads(b, slice, t, lo, hi) && Agree(b, c, lo, hi) && lo' <= lo && hi <= hi' <= |c|
    ensures Reads(c, slice, t, lo', hi')
  {
  }

  lemma StringFrame(b: Str, c: Str, slice: Slice, t: Str, lo: nat, hi: nat, lo': nat, hi': nat, flags: Flags)
    requires ReadsString(b, slice, t, lo, hi, flags) && Agree(b, c, lo, hi) && lo' <= lo && hi <= hi' <= |c|
    ensures ReadsString(c, slice, t, lo', hi', flags)
  {
  }

  ghost predicate SameEnd(a: Result<(Attrs, nat)>, b: Result<(Attrs, nat)>) {
    if a.Ok? then b.Ok? && a.value.1 == b.value.1 else a == b
  }

  /** Reads every attribute; append_attribute links none of them to the node. */
  method ReadAttributes(buf: array<Ch>, p: nat, flags: Flags, ghost s: Str) returns (r: Result<nat>)
    requires Terminated(s) && p < |s| && Unread(buf, p, s)
    modifies buf
    ensures Agree(old(buf[..]), buf[..], 0, p)
    ensures match ParseAttributes(s, p)
            case Err(message) => r == Err(message)
            case Ok((_, next)) => r == Ok(next) && Unread(buf, next, s)
  {
    hide ParseAttribute;
    var q := p;
    while IsAttributeName(buf[q])
      invariant p <= q < |s| && Unread(buf, q, s) && Agree(old(buf[..]), buf[..], 0, p)
      invariant SameEnd(ParseAttributes(s, p), ParseAttributes(s, q))
      decreases |s| - q
    {
      var a := ReadAttribute(buf, q, flags, s);
      if a.Err? {
        return Err(a.message);
      }
      q := a.value.next;
    }
    r := Ok(q);
  }

  method ReadDeclaration(buf: array<Ch>, p: nat, flags: Flags, ghost s: Str) returns (r: Result<(Option<RawNode>, nat)>)
    requires Terminated(s) && p < |s| && Unread(buf, p, s)
    modifies buf
    ensures Refines(old(buf[..]), buf[..], s, p, ParseDeclaration(s, p, flags), r, flags)
  {
    hide Scan, Skip, ParseAttributes, HasAt;
    if flags.declarations {
      var q := SkipBuffer(buf, p, Space, s);
      var end := ReadAttributes(buf, q, flags, s);
      if end.Err? {
        return Err(end.message);
      }
      var closed := Ahead(buf, end.value, "?>", s);
      if !closed {
        return Err("expected ?>");
      }
      LastNotNul(s, end.value, "?>");
      r := Ok((Some(RawDeclaration), end.value + 2));
    } else {
      var end := ScanBuffer(buf, p, "?>", s);
      if end.Err? {
        return Err(end.message);
      }
      r := Ok((None, end.value + 2));
    }
  }

  /** The letters of `?xml ` or `?XML `, in any mix, followed by white space. */
  method AheadDeclaration(buf: array<Ch>, p: nat, ghost s: Str) returns (yes: bool)
    requires Terminated(s) && p < |s| && Unread(buf, p, s) && s[p] == '?'
    ensures yes == AtDeclaration(s, p)
    ensures yes ==> p + 5 < |s|
  {
    yes := (buf[p + 1] == 'x' || buf[p + 1] == 'X') && (buf[p + 2] == 'm' || buf[p + 2] == 'M')
        && (buf[p + 3] == 'l' || buf[p + 3] == 'L') && IsSpace(buf[p + 4]);
  }

  method ReadSpecial(buf: array<Ch>, p: nat, flags: Flags, ghost s: Str) returns (r: Result<(Option<RawNode>, nat)>)
    requires Terminated(s) && p < |s| && (s[p] == '?' || s[p] == '!') && Unread(buf, p, s)
    modifies buf
    ensures Refines(old(buf[..]), buf[..], s, p, ParseSpecial(s, p, flags), r, flags)
  {
    hide Scan, HasAt, AtDeclaration, ParseDeclaration, ParsePi, ParseComment, ParseCData, ParseDoctype;
    if buf[p] == '?' {
      var declaration := AheadDeclaration(buf, p, s);
      if declaration {
        r := ReadDeclaration(buf, p + 5, flags, s);
        Later(old(buf[..]), buf[..], s, p, p + 5, ParseDeclaration(s, p + 5, flags), r, flags);
      } else {
        r := ReadPi(buf, p + 1, flags, s);
        Later(old(buf[..]), buf[..], s, p, p + 1, ParsePi(s, p + 1, flags), r, flags);
      }
      return;
    }
    var comment := Ahead(buf, p, "!--", s);
    if comment {
      LastNotNul(s, p, "!--");
      r := ReadComment(buf, p + 3, flags, s);
      Later(old(buf[..]), buf[..], s, p, p + 3, ParseComment(s, p + 3, flags), r, flags);
      return;
    }
    var cdata := Ahead(buf, p, "![CDATA[", s);
    if cdata {
      LastNotNul(s, p, "![CDATA[");
      r := ReadCData(buf, p + 8, flags, s);
      Later(old(buf[..]), buf[..], s, p, p + 8, ParseCData(s, p + 8, flags), r, flags);
      return;
    }
    var doctype := Ahead(buf, p, "!DOCTYPE", s);
    if doctype {
      LastNotNul(s, p, "!DOCTYPE");
      if IsSpace(buf[p + 8]) {
        r := ReadDoctype(buf, p + 9, flags, s);
        Later(old(buf[..]), buf[..], s, p, p + 9, ParseDoctype(s, p + 9, flags), r, flags);
        return;
      }
    }
    var end := ScanBuffer(buf, p + 1, ">", s);
    r := if end.Err? then Err(end.message) else Ok((None, end.value + 1));
  }

  /** A promise about the text from q on is one about the text from p on. */
  lemma Later(b0: Str, b: Str, s: Str, p: nat, q: nat, spec: Parsed, r: Result<(Option<RawNode>, nat)>, flags: Flags)
    requires p <= q && Refines(b0, b, s, q, spec, r, flags) && q <= |s|
    ensures Refines(b0, b, s, p, spec, r, flags)
  {
    if spec.Ok? && spec.value.0.Some? {
      var (n, next) := spec.value;
      StoresFrame(b, b, r.value.0.value, n.value, q, next, p, next, flags);
    }
  }

  // ----- elements and their contents

  /** As Refines, for the children of a node. */
  ghost predicate RefinesAll(b0: Str, b: Str, s: Str, p: nat, spec: Result<(seq<Node>, nat)>,
      r: Result<(seq<RawNode>, nat)>, flags: Flags) {
    && |b0| == |b| == |s|
    && Agree(b0, b, 0, p)
    && match spec
       case Err(message) => r == Err(message)
       case Ok((ns, next)) =>
         && r.Ok? && r.value.1 == next && next <= |s|
         && StoresAll(b, r.value.0, ns, p, next, flags) && Agree(b, s, next, |s|)
  }

  method ReadNode(buf: array<Ch>, p: nat, flags: Flags, ghost s: Str) returns (r: Result<(Option<RawNode>, nat)>)
    requires Terminated(s) && p < |s| && Unread(buf, p, s)
    modifies buf
    ensures Refines(old(buf[..]), buf[..], s, p, ParseNode(s, p, flags), r, flags)
    decreases |s| - p, 3
  {
    hide ParseElement, ParseSpecial;
    if buf[p] == '?' || buf[p] == '!' {
      r := ReadSpecial(buf, p, flags, s);
    } else {
      var element := ReadElement(buf, p, flags, s);
      r := if element.Err? then Err(element.message) else Ok((Some(element.value.0), element.value.1));
    }
  }

  method ReadStartTag(buf: array<Ch>, p: nat, flags: Flags, ghost s: Str) returns (r: Result<(Slice, nat)>)
    requires Terminated(s) && p < |s| && Unread(buf, p, s)
    modifies buf
    ensures Agree(old(buf[..]), buf[..], 0, p)
    ensures match ParseStartTag(s, p)
            case Err(message) => r == Err(message)
            case Ok((name, q)) => r == Ok((Slice(p, |name|), q)) && Unread(buf, q, s) && p + |name| <= q
                                  && Reads(buf[..], r.value.0, name, p, q)
  {
    hide Skip, ParseAttributes;
    var nameEnd := SkipBuffer(buf, p, NodeName, s);
    if nameEnd == p {
      return Err("expected element name");
    }
    var start := SkipBuffer(buf, nameEnd, Space, s);
    var q := ReadAttributes(buf, start, flags, s);
    r := if q.Err? then Err(q.message) else Ok((Slice(p, nameEnd - p), q.value));
  }

  method ReadElement(buf: array<Ch>, p: nat, flags: Flags, ghost s: Str) returns (r: Result<(RawNode, nat)>)
    requires Terminated(s) && p < |s| && Unread(buf, p, s)
    modifies buf
    ensures Agree(old(buf[..]), buf[..], 0, p)
    ensures match ParseElement(s, p, flags)
            case Err(message) => r == Err(message)
            case Ok((n, next)) =>
              && r.Ok? && r.value.1 == next
              && Stores(buf[..], r.value.0, n, p, next, flags) && Agree(buf[..], s, next, |s|)
    decreases |s| - p, 2
  {
    hide ParseStartTag, ParseContents, Reads, StoresAll;
    var tag := ReadStartTag(buf, p, flags, s);
    if tag.Err? {
      return Err(tag.message);
    }
    var (slice, q) := tag.value;
    ghost var name := ParseStartTag(s, p).value.0;
    var children, next;
    if buf[q] == '>' {
      ghost var tagged := buf[..];
      ReadsFrame(tagged, tagged, slice, name, p, q, 0, q + 1);
      var contents := ReadContents(buf, q + 1, slice, flags, name, s);
      if contents.Err? {
        return Err(contents.message);
      }
      children, next := contents.value.0, contents.value.1;
      ReadsFrame(tagged, buf[..], slice, name, p, q, p, q);
    } else if buf[q] == '/' {
      if buf[q + 1] != '>' {
        return Err("expected >");
      }
      children, next := [], q + 2;
      NoChildren(buf[..], q + 1, next, flags);
    } else {
      return Err("expected >");
    }
    ghost var n := ParseElement(s, p, flags).value.0;
    FinishElement(buf, p, slice, name, q, children, n.children, next, flags);
    r := Ok((RawElement(slice, children), next));
  }

  lemma NoChildren(b: Str, lo: nat, hi: nat, flags: Flags)
    ensures StoresAll(b, [], [], lo, hi, flags)
  {
  }

  /** The terminator of an element's name is placed only after its contents were parsed; it falls
      between the name and everything stored behind the start tag. */
  method FinishElement(buf: array<Ch>, p: nat, name: Slice, ghost text: Str, ghost q: nat, children: seq<RawNode>,
      ghost ns: seq<Node>, ghost next: nat, flags: Flags)
    requires name.start == p && p + name.len <= q < next <= buf.Length
    requires Reads(buf[..], name, text, p, q) && StoresAll(buf[..], children, ns, q + 1, next, flags)
    modifies buf
    ensures Agree(old(buf[..]), buf[..], 0, p) && Agree(old(buf[..]), buf[..], next, buf.Length)
    ensures Stores(buf[..], RawElement(name, children), Element(text, [], ns), p, next, flags)
  {
    hide Stores, StoresAll;
    ghost var b := buf[..];
    PlaceTerminator(buf, p + name.len, flags);
    StoresAllFrame(b, buf[..], children, ns, q + 1, next, p, next, flags);
    ReadsFrame(b, buf[..], name, text, p, p + name.len, p, next);
    ElementStored(buf[..], name, text, children, ns, p, next, flags);
  }

  lemma ElementStored(b: Str, name: Slice, text: Str, children: seq<RawNode>, ns: seq<Node>, p: nat, next: nat,
      flags: Flags)
    requires ReadsString(b, name, text, p, next, flags) && StoresAll(b, children, ns, p, next, flags)
    ensures Stores(b, RawElement(name, children), Element(text, [], ns), p, next, flags)
  {
  }

  method ReadClosing(buf: array<Ch>, p: nat, slice: Slice, flags: Flags, ghost name: Str, ghost s: Str)
      returns (r: Result<nat>)
    requires Terminated(s) && p < |s| && Unread(buf, p, s) && Reads(buf[..], slice, name, 0, p)
    ensures r == ParseClosing(s, p, name, flags)
  {
    hide Skip;
    var nameEnd := SkipBuffer(buf, p, NodeName, s);
    if flags.validateClosing {
      assert buf[p..nameEnd] == s[p..nameEnd];
      assert buf[slice.start..slice.start + slice.len] == name;
      if buf[p..nameEnd] != buf[slice.start..slice.start + slice.len] {
        return Err("invalid closing tag name");
      }
    }
    var q := SkipBuffer(buf, nameEnd, Space, s);
    r := if buf[q] != '>' then Err("expected >") else Ok(q + 1);
  }

  /** What is still to be parsed, put behind what was parsed. */
  function Behind(done: seq<Node>, r: Result<(seq<Node>, nat)>): (b: Result<(seq<Node>, nat)>)
    ensures done == [] ==> b == r
  {
    if r.Ok? then
      assert done == [] ==> done + r.value.0 == r.value.0;
      Ok((done + r.value.0, r.value.1))
    else r
  }

  /** Character data ends at the `<` or NUL that the terminator may overwrite, so that character is
      saved and returned; only what follows it is still unread. */
  method ReadData(buf: array<Ch>, start: nat, flags: Flags, ghost s: Str)
      returns (r: Result<Option<RawNode>>, next: nat, nextChar: Ch)
    requires Terminated(s) && start < |s| && Unread(buf, start, s)
    modifies buf
    ensures Agree(old(buf[..]), buf[..], 0, start)
    ensures match Expand(s, start, '<')
            case Err(message) => r == Err(message)
            case Ok((value, p)) =>
              r.Ok? && next == p && nextChar == s[p] && Unread(buf, p + 1, s)
              && StoresOption(buf[..], r.value, Keep(!flags.noDataNodes, Data(value)), start, p + 1, flags)
  {
    hide Expand;
    var end;
    end, next := SkipAndExpand(buf, start, '<', s);
    if end.Err? {
      return Err(end.message), next, NUL;
    }
    nextChar := buf[next];
    PlaceTerminator(buf, end.value, flags);
    r := Ok(if flags.noDataNodes then None else Some(RawData(Slice(start, end.value - start))));
  }

  /** The children, and behind them the data that starts here. */
  method ReadDataChild(buf: array<Ch>, start: nat, children: seq<RawNode>, flags: Flags, ghost s: Str, ghost p: nat,
      ghost ns: seq<Node>) returns (r: Result<seq<RawNode>>, next: nat, nextChar: Ch)
    requires Terminated(s) && p <= start < |s| && Unread(buf, start, s)
    requires StoresAll(buf[..], children, ns, p, start, flags)
    modifies buf
    ensures Agree(old(buf[..]), buf[..], 0, start)
    ensures match Expand(s, start, '<')
            case Err(message) => r == Err(message)
            case Ok((value, q)) =>
              r.Ok? && next == q && nextChar == s[q] && Unread(buf, q + 1, s)
              && StoresAll(buf[..], r.value, ns + Listed(Keep(!flags.noDataNodes, Data(value))), p, q + 1, flags)
  {
    hide Expand, StoresAll, StoresOption;
    var data;
    data, next, nextChar := ReadData(buf, start, flags, s);
    if data.Err? {
      return Err(data.message), next, nextChar;
    }
    ghost var n := Keep(!flags.noDataNodes, Data(Expand(s, start, '<').value.0));
    AddChild(old(buf[..]), buf[..], children, ns, p, start, start, data.value, n, next + 1, flags);
    r := Ok(children + RawListed(data.value));
  }

  /** The children, and behind them the node whose `<` is here. */
  method ReadChild(buf: array<Ch>, at: nat, children: seq<RawNode>, flags: Flags, ghost s: Str, ghost p: nat,
      ghost parsed: nat, ghost ns: seq<Node>) returns (r: Result<(seq<RawNode>, nat)>)
    requires Terminated(s) && p <= parsed <= at + 1 < |s| && Unread(buf, at + 1, s)
    requires StoresAll(buf[..], children, ns, p, parsed, flags)
    modifies buf
    ensures Agree(old(buf[..]), buf[..], 0, at + 1)
    ensures match ParseNode(s, at + 1, flags)
            case Err(message) => r == Err(message)
            case Ok((n, next)) =>
              r.Ok? && r.value.1 == next && at < next < |s| && Unread(buf, next, s)
              && StoresAll(buf[..], r.value.0, ns + Listed(n), p, next, flags)
    decreases |s| - at, 0
  {
    hide ParseNode, StoresAll, StoresOption;
    var child := ReadNode(buf, at + 1, flags, s);
    if child.Err? {
      return Err(child.message);
    }
    ghost var n, next := ParseNode(s, at + 1, flags).value.0, child.value.1;
    AddChild(old(buf[..]), buf[..], children, ns, p, parsed, at + 1, child.value.0, n, next, flags);
    r := Ok((children + RawListed(child.value.0), child.value.1));
  }

  method ReadContents(buf: array<Ch>, p: nat, slice: Slice, flags: Flags, ghost name: Str, ghost s: Str)
      returns (r: Result<(seq<RawNode>, nat)>)
    requires Terminated(s) && p < |s| && Unread(buf, p, s) && Reads(buf[..], slice, name, 0, p)
    modifies buf
    ensures RefinesAll(old(buf[..]), buf[..], s, p, ParseContents(s, p, name, flags), r, flags)
    decreases |s| - p, 1
  {
    hide ParseNode, ParseClosing, Expand, Skip, Reads, Stores, ParseContents, StoresAll, StoresOption;
    ghost var b0 := buf[..];
    var text, children := p, [];
    ghost var ns: seq<Node> := [];
    var afterData, nextChar := false, NUL;
    NoChildren(buf[..], p, p, flags);
    while true
      invariant p <= text < |s| && Agree(b0, buf[..], 0, p)
      invariant Unread(buf, text + 1, s) && (afterData ==> nextChar == s[text] && (nextChar == '<' || nextChar == NUL))
      invariant !afterData ==> Unread(buf, text, s)
      invariant StoresAll(buf[..], children, ns, p, if afterData then text + 1 else text, flags)
      invariant ParseContents(s, p, name, flags) == Behind(ns, ParseContents(s, text, name, flags))
      decreases |s| - text
    {
      ghost var b := buf[..];
      var contentsStart := text;
      ghost var parsed := if afterData then text + 1 else text;
      if !afterData {
        text := SkipBuffer(buf, text, Space, s);
        nextChar := buf[text];
      }
      AtNext(s, contentsStart, text, afterData);
      if nextChar == '<' {
        if buf[text + 1] == '/' {
          UnfoldClosing(s, contentsStart, text, name, flags);
          ReadsFrame(b0, b, slice, name, 0, p, 0, text + 2);
          var next := ReadClosing(buf, text + 2, slice, flags, name, s);
          if next.Err? {
            return Err(next.message);
          }
          StoresAllFrame(b, b, children, ns, p, parsed, p, next.value, flags);
          BehindAll(ns, next.value);
          return Ok((children, next.value));
        }
        UnfoldChild(s, contentsStart, text, name, flags);
        var more := ReadChild(buf, text, children, flags, s, p, parsed, ns);
        if more.Err? {
          return Err(more.message);
        }
        ghost var n := ParseNode(s, text + 1, flags).value.0;
        BehindMore(ns, Listed(n), ParseContents(s, more.value.1, name, flags));
        children, ns := more.value.0, ns + Listed(n);
        text, afterData := more.value.1, false;
      } else if nextChar == NUL {
        UnfoldEnd(s, contentsStart, text, name, flags);
        return Err("unexpected end of data");
      } else {
        UnfoldData(s, contentsStart, text, name, flags);
        var more, next;
        more, next, nextChar := ReadDataChild(buf, contentsStart, children, flags, s, p, ns);
        if more.Err? {
          return Err(more.message);
        }
        ghost var n := Keep(!flags.noDataNodes, Data(Expand(s, contentsStart, '<').value.0));
        BehindMore(ns, Listed(n), ParseContents(s, next, name, flags));
        children, ns := more.value, ns + Listed(n);
        text, afterData := next, true;
      }
    }
  }

  function RawListed(n: Option<RawNode>): seq<RawNode> { if n.Some? then [n.value] else [] }

  lemma BehindMore(a: seq<Node>, b: seq<Node>, r: Result<(seq<Node>, nat)>)
    ensures Behind(a, Behind(b, r)) == Behind(a + b, r)
  {
    if r.Ok? { assert a + (b + r.value.0) == (a + b) + r.value.0; }
  }

  lemma BehindAll(ns: seq<Node>, next: nat)
    ensures Behind(ns, Ok(([], next))) == Ok((ns, next))
  {
    assert ns + [] == ns;
  }

  /** White space is skipped except behind data, where there is none. */
  lemma AtNext(s: Str, p: nat, q: nat, afterData: bool)
    requires Terminated(s) && p < |s|
    requires if afterData then q == p && (s[p] == '<' || s[p] == NUL) else q == Skip(s, p, Space)
    ensures q == Skip(s, p, Space)
  {
  }

  // one round of parse_node_contents

  lemma UnfoldEnd(s: Str, p: nat, q: nat, name: Str, flags: Flags)
    requires Terminated(s) && p < |s| && q == Skip(s, p, Space) && s[q] == NUL
    ensures ParseContents(s, p, name, flags) == Err("unexpected end of data")
  {
    hide Skip;
  }

  lemma UnfoldClosing(s: Str, p: nat, q: nat, name: Str, flags: Flags)
    requires Terminated(s) && p < |s| && q == Skip(s, p, Space) && s[q] == '<' && s[q + 1] == '/'
    ensures ParseContents(s, p, name, flags) ==
      var next := ParseClosing(s, q + 2, name, flags); if next.Err? then Err(next.message) else Ok(([], next.value))
  {
    hide ParseClosing, Skip;
  }

  lemma UnfoldChild(s: Str, p: nat, q: nat, name: Str, flags: Flags)
    requires Terminated(s) && p < |s| && q == Skip(s, p, Space) && s[q] == '<' && s[q + 1] != '/'
    ensures ParseContents(s, p, name, flags) ==
      var child := ParseNode(s, q + 1, flags);
      if child.Err? then Err(child.message)
      else Behind(Listed(child.value.0), ParseContents(s, child.value.1, name, flags))
  {
    hide ParseNode, Skip;
  }

  lemma UnfoldData(s: Str, p: nat, q: nat, name: Str, flags: Flags)
    requires Terminated(s) && p < |s| && q == Skip(s, p, Space) && s[q] != '<' && s[q] != NUL
    ensures ParseContents(s, p, name, flags) ==
      var data := Expand(s, p, '<');
      if data.Err? then Err(data.message)
      else Behind(Listed(Keep(!flags.noDataNodes, Data(data.value.0))), ParseContents(s, data.value.1, name, flags))
  {
    hide Expand, Skip;
  }

  /** A node stored behind the children joins them. */
  lemma AddChild(b: Str, c: Str, children: seq<RawNode>, ns: seq<Node>, p: nat, hi: nat, lo: nat, raw: Option<RawNode>,
      n: Option<Node>, next: nat, flags: Flags)
    requires StoresAll(b, children, ns, p, hi, flags) && Agree(b, c, p, hi) && p <= hi <= lo <= next <= |c|
    requires StoresOption(c, raw, n, lo, next, flags)
    ensures StoresAll(c, children + RawListed(raw), ns + Listed(n), p, next, flags)
  {
    hide Stores;
    StoresAllFrame(b, c, children, ns, p, hi, p, next, flags);
    if raw.Some? { StoresFrame(c, c, raw.value, n.value, lo, next, p, next, flags); }
  }

  // ----- documents

  /** parse: the whole buffer, destructively. */
  method Parse(buf: array<Ch>, flags: Flags) returns (r: Result<seq<RawNode>>)
    requires Terminated(buf[..])
    modifies buf
    ensures match ParseDocument(old(buf[..]), flags)
            case Err(message) => r == Err(message)
            case Ok(ns) => r.Ok? && StoresAll(buf[..], r.value, ns, 0, buf.Length, flags)
  {
    hide ParseNode, Skip, Stores, ParseTop;
    ghost var s := buf[..];
    var text := 0;
    if buf[0] == '\U{EF}' && buf[1] == '\U{BB}' && buf[2] == '\U{BF}' {
      text := 3;
    }
    assert text == BomEnd(s);
    ghost var start := text;
    var children: seq<RawNode> := [];
    ghost var ns: seq<Node> := [];
    while true
      invariant start <= text < |s| && Unread(buf, text, s)
      invariant StoresAll(buf[..], children, ns, 0, text, flags)
      invariant ParseTop(s, start, flags) == BehindTop(ns, ParseTop(s, text, flags))
      decreases |s| - text
    {
      ghost var b, before := buf[..], text;
      text := SkipBuffer(buf, text, Space, s);
      TopUnfold(s, before, text, flags);
      if buf[text] == NUL {
        StoresAllFrame(b, b, children, ns, 0, before, 0, |s|, flags);
        assert ns + [] == ns;
        return Ok(children);
      }
      if buf[text] != '<' {
        return Err("expected <");
      }
      var child := ReadNode(buf, text + 1, flags, s);
      if child.Err? {
        return Err(child.message);
      }
      ghost var n, next := ParseNode(s, text + 1, flags).value.0, child.value.1;
      AddChild(b, buf[..], children, ns, 0, before, text + 1, child.value.0, n, next, flags);
      BehindTopMore(ns, Listed(n), ParseTop(s, next, flags));
      children, ns := children + RawListed(child.value.0), ns + Listed(n);
      text := child.value.1;
    }
  }

  function BehindTop(done: seq<Node>, r: Result<seq<Node>>): (b: Result<seq<Node>>)
    ensures done == [] ==> b == r
  {
    if r.Ok? then
      assert done == [] ==> done + r.value == r.value;
      Ok(done + r.value)
    else r
  }

  lemma BehindTopMore(a: seq<Node>, b: seq<Node>, r: Result<seq<Node>>)
    ensures BehindTop(a, BehindTop(b, r)) == BehindTop(a + b, r)
  {
    if r.Ok? { assert a + (b + r.value) == (a + b) + r.value; }
  }

  lemma TopUnfold(s: Str, p: nat, q: nat, flags: Flags)
    requires Terminated(s) && p < |s| && q == Skip(s, p, Space)
    ensures s[q] == NUL ==> ParseTop(s, p, flags) == Ok([])
    ensures s[q] != NUL && s[q] != '<' ==> ParseTop(s, p, flags) == Err("expected <")
    ensures s[q] == '<' ==>
      ParseTop(s, p, flags) ==
        var child := ParseNode(s, q + 1, flags);
        if child.Err? then Err(child.message) else BehindTop(Listed(child.value.0), ParseTop(s, child.value.1, flags))
  {
    hide ParseNode, Skip;
  }
}
