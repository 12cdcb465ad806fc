/** Parsing printed text: for every setting of the flags the parser returns exactly the nodes the
    flags keep, without the attributes that append_attribute drops. */
module XmlRoundTrip {
  import opened XmlText
  import opened Wrappers
  import opened XmlParser
  import opened XmlPrinter

  // ----- trees that print as text that means the same tree

  predicate AllIn(k: Class, t: Str) { forall c :: c in t ==> InClass(k, c) }

  ghost predicate Without(t: Str, marker: Str) { forall i: nat :: !HasAt(t, i, marker) }

  // the three kinds of characters, by their characters

  predicate SpaceChar(c: Ch) { c in {' ', '\t', '\n', '\r'} }

  predicate NameChar(c: Ch) { c !in {' ', '\t', '\n', '\r', '/', '>', '?', '\0'} }

  predicate AttributeChar(c: Ch) { c !in {' ', '\t', '\n', '\r', '/', '<', '>', '=', '?', '!', '\0'} }

  predicate White(t: Str) { forall c :: c in t ==> SpaceChar(c) }

  predicate IsName(t: Str) { t != [] && forall c :: c in t ==> NameChar(c) }

  predicate IsAttribute(t: Str) { t != [] && forall c :: c in t ==> AttributeChar(c) }

  lemma Tables(c: Ch)
    ensures IsSpace(c) <==> SpaceChar(c)
    ensures IsNodeName(c) <==> NameChar(c)
    ensures IsAttributeName(c) <==> AttributeChar(c)
  {
  }

  lemma Classes(t: Str)
    ensures AllIn(Space, t) <==> White(t)
    ensures t != [] && AllIn(NodeName, t) <==> IsName(t)
    ensures t != [] && AllIn(AttributeName, t) <==> IsAttribute(t)
  {
    hide IsSpace, IsNodeName, IsAttributeName, SpaceChar, NameChar, AttributeChar;
    forall c ensures (IsSpace(c) <==> SpaceChar(c)) && (IsNodeName(c) <==> NameChar(c))
      && (IsAttributeName(c) <==> AttributeChar(c)) { Tables(c); }
  }

  predicate IsXmlName(t: Str) {
    |t| == 3 && t[0] in "xX" && t[1] in "mM" && t[2] in "lL"
  }

  /** Text in which a DOCTYPE can end only behind the last character. */
  predicate DoctypeText(t: Str, depth: nat) {
    if t == [] then depth == 0
    else
      && t[0] != NUL
      && (depth == 0 ==> t[0] != '>')
      && DoctypeText(t[1..], if t[0] == '[' then depth + 1 else if t[0] == ']' && depth > 0 then depth - 1 else depth)
  }

  ghost predicate NormalAttributes(attrs: Attrs) {
    forall a :: a in attrs ==> IsAttribute(a.0) && NulFree(a.1)
  }

  ghost predicate Normal(n: Node) {
    match n
    case Element(name, attrs, children) =>
      IsName(name) && name[0] != '!' && NormalAttributes(attrs) && NormalAll(children)
    case Data(value) => NulFree(value) && !White(value)
    case CData(value) => NulFree(value) && Without(value, "]]>")
    case Comment(value) => NulFree(value) && Without(value, "-->")
    case Doctype(value) => DoctypeText(value, 0)
    case Pi(name, value) =>
      && IsName(name) && !IsXmlName(name)
      && NulFree(value) && Without(value, "?>") && (value != [] ==> !SpaceChar(value[0]))
    case Declaration(attrs) => attrs != [] && NormalAttributes(attrs)
  }

  /** Normal nodes, no two data nodes side by side. */
  ghost predicate NormalAll(ns: seq<Node>) {
    if ns == [] then true
    else Normal(ns[0]) && NormalAll(ns[1..]) && (ns[0].Data? && |ns| > 1 ==> !ns[1].Data?)
  }

  // ----- what the parser keeps

  function Seen(flags: Flags, n: Node): Option<Node>
    decreases n, 1
  {
    match n
    case Element(name, _, children) => Some(Element(name, [], Visible(flags, children)))
    case Data(_) => Keep(!flags.noDataNodes, n)
    case CData(_) => Keep(!flags.noDataNodes, n)
    case Comment(_) => Keep(flags.comments, n)
    case Doctype(_) => Keep(flags.doctypes, n)
    case Pi(_, _) => Keep(flags.pis, n)
    case Declaration(_) => Keep(flags.declarations, Declaration([]))
  }

  function Visible(flags: Flags, ns: seq<Node>): seq<Node>
    decreases ns, 0
  {
    if ns == [] then [] else Listed(Seen(flags, ns[0])) + Visible(flags, ns[1..])
  }

  // ----- scanning printed text

  lemma SkipExact(s: Str, p: nat, q: nat, k: Class)
    requires Terminated(s) && p <= q < |s| && !InClass(k, s[q])
    requires forall i :: p <= i < q ==> InClass(k, s[i])
    ensures Skip(s, p, k) == q
  {
  }

  lemma SkipText(s: Str, p: nat, t: Str, k: Class)
    requires Terminated(s) && HasAt(s, p, t) && AllIn(k, t)
    requires p + |t| < |s| && !InClass(k, s[p + |t|])
    ensures Skip(s, p, k) == p + |t| && s[p..p + |t|] == t
  {
    forall i | p <= i < p + |t| ensures InClass(k, s[i]) {
      HasAtIndex(s, p, t, i - p);
      assert t[i - p] in t;
    }
    SkipExact(s, p, p + |t|, k);
  }

  /** A marker whose last character occurs nowhere else in it cannot begin inside the text before it. */
  lemma NoStraddle(t: Str, marker: Str, i: nat)
    requires Without(t, marker) && marker != [] && i < |t|
    requires marker[|marker| - 1] !in marker[..|marker| - 1]
    ensures !HasAt(t + marker, i, marker)
  {
    var u, m := t + marker, |marker|;
    if i + m <= |t| {
      assert u[i..i + m] == t[i..i + m];
      assert !HasAt(t, i, marker);
    } else {
      var j := i + m - 1 - |t|;
      assert u[i + m - 1] == marker[j] == marker[..m - 1][j];
      if HasAt(u, i, marker) { HasAtIndex(u, i, marker, m - 1); }
    }
  }

  lemma SubOccurrence(s: Str, p: nat, u: Str, q: nat, t: Str)
    requires HasAt(s, p, u) && HasAt(s, q, t) && p <= q && q + |t| <= p + |u|
    ensures HasAt(u, q - p, t)
  {
    forall k | 0 <= k < |t| ensures u[q - p..q - p + |t|][k] == t[k] {
      HasAtIndex(s, q, t, k);
      HasAtIndex(s, p, u, q - p + k);
    }
  }

  lemma ScanFinds(s: Str, p: nat, t: Str, marker: Str)
    requires Terminated(s) && p < |s| && HasAt(s, p, t + marker) && NulFree(t) && Without(t, marker)
    requires marker != [] && NulFree(marker) && marker[|marker| - 1] !in marker[..|marker| - 1]
    ensures Scan(s, p, marker) == Ok(p + |t|) && s[p..p + |t|] == t
  {
    HasAtConcat(s, p, t, marker);
    ScanReaches(s, p, p, t, marker);
  }

  lemma {:induction false} ScanReaches(s: Str, p: nat, q: nat, t: Str, marker: Str)
    requires Terminated(s) && HasAt(s, p, t + marker) && NulFree(t) && Without(t, marker)
    requires HasAt(s, p + |t|, marker) && HasAt(s, p, t)
    requires p <= q <= p + |t| && q < |s|
    requires marker != [] && NulFree(marker) && marker[|marker| - 1] !in marker[..|marker| - 1]
    ensures Scan(s, q, marker) == Ok(p + |t|)
    decreases p + |t| - q
  {
    if q < p + |t| {
      NoStraddle(t, marker, q - p);
      HasAtIndex(s, p, t, q - p);
      assert t[q - p] in t;
      if HasAt(s, q, marker) { SubOccurrence(s, p, t + marker, q, marker); }
      ScanReaches(s, p, q + 1, t, marker);
    }
  }

  // ----- text with white space in it

  /** White space in front of an attribute and around its equals sign. */
  datatype AttributeGap = AttributeGap(before: Str, left: Str, right: Str)

  /** White space in front of a node, in its start tag, around its children and in its closing tag. */
  datatype Gap = Gap(before: Str, attrs: seq<AttributeGap>, tag: Str, inside: seq<Gap>, last: Str, close: Str)

  function FirstAttribute(gs: seq<AttributeGap>): AttributeGap { if gs == [] then AttributeGap(" ", "", "") else gs[0] }

  function FirstGap(gs: seq<Gap>): Gap { if gs == [] then Gap("", [], "", [], "", "") else gs[0] }

  function Others<T>(gs: seq<T>): seq<T> { if gs == [] then [] else gs[1..] }

  function SpacedAttribute(name: Str, value: Str, g: AttributeGap): Str {
    var (quote, noexpand) := QuoteFor(value);
    g.before + name + g.left + "=" + g.right + [quote] + Escape(value, noexpand) + [quote]
  }

  function SpacedAttributes(attrs: Attrs, gs: seq<AttributeGap>): Str {
    if attrs == [] then []
    else SpacedAttribute(attrs[0].0, attrs[0].1, FirstAttribute(gs)) + SpacedAttributes(attrs[1..], Others(gs))
  }

  function SpacedNode(n: Node, g: Gap): Str
    decreases n, 0
  {
    match n
    case Element(name, attrs, children) =>
      var start := "<" + name + SpacedAttributes(attrs, g.attrs) + g.tag;
      if children == [] then start + "/>"
      else start + ">" + SpacedAll(children, g.inside, g.last) + "</" + name + g.close + ">"
    case Declaration(attrs) => "<?xml" + SpacedAttributes(attrs, g.attrs) + g.tag + "?>"
    case _ => Print(n)
  }

  function SpacedAll(ns: seq<Node>, gs: seq<Gap>, last: Str): Str
    decreases ns, 1
  {
    if ns == [] then last
    else FirstGap(gs).before + SpacedNode(ns[0], FirstGap(gs)) + SpacedAll(ns[1..], Others(gs), last)
  }

  predicate AttributesFit(attrs: Attrs, gs: seq<AttributeGap>) {
    attrs == [] ||
    (var g := FirstAttribute(gs);
     g.before != [] && White(g.before) && White(g.left) && White(g.right) && AttributesFit(attrs[1..], Others(gs)))
  }

  predicate GapFits(n: Node, g: Gap)
    decreases n, 0
  {
    match n
    case Element(_, attrs, children) =>
      && AttributesFit(attrs, g.attrs) && White(g.tag) && White(g.close) && GapsFit(children, g.inside, g.last, false)
    case Declaration(attrs) => AttributesFit(attrs, g.attrs) && White(g.tag)
    case _ => true
  }

  /** White space anywhere between markup: next to character data it would belong to the data. */
  predicate GapsFit(ns: seq<Node>, gs: seq<Gap>, last: Str, afterData: bool)
    decreases ns, 1
  {
    if ns == [] then White(last) && (afterData ==> last == [])
    else
      var g := FirstGap(gs);
      && White(g.before) && (afterData || ns[0].Data? ==> g.before == [])
      && GapFits(ns[0], g) && GapsFit(ns[1..], Others(gs), last, ns[0].Data?)
  }

  // ----- attributes

  predicate EndsTag(c: Ch) { c == '>' || c == '/' || c == '?' }

  lemma SkipWhite(s: Str, p: nat, t: Str)
    requires Terminated(s) && HasAt(s, p, t) && White(t) && p + |t| < |s| && !IsSpace(s[p + |t|])
    ensures Skip(s, p, Space) == p + |t|
  {
    hide IsSpace, HasAt, White, AllIn;
    Classes(t);
    SkipText(s, p, t, Space);
  }

  lemma {:induction false} ParseSpacedAttributes(s: Str, p: nat, attrs: Attrs, gs: seq<AttributeGap>, tag: Str)
    requires Terminated(s) && NormalAttributes(attrs) && AttributesFit(attrs, gs) && White(tag)
    requires HasAt(s, p, SpacedAttributes(attrs, gs) + tag)
    requires p + |SpacedAttributes(attrs, gs) + tag| < |s| && EndsTag(s[p + |SpacedAttributes(attrs, gs) + tag|])
    ensures ParseAttributes(s, Skip(s, p, Space)) == Ok((attrs, p + |SpacedAttributes(attrs, gs) + tag|))
    decreases |attrs|
  {
    hide SpacedAttribute, ParseAttribute, ParseAttributes, HasAt, Skip, White;
    if attrs == [] {
      assert SpacedAttributes(attrs, gs) + tag == tag;
      SkipWhite(s, p, tag);
      NoAttributes(s, p + |tag|);
    } else {
      var (name, value) := attrs[0];
      assert (name, value) in attrs;
      var g, one := FirstAttribute(gs), SpacedAttribute(name, value, FirstAttribute(gs));
      var rest := SpacedAttributes(attrs[1..], Others(gs));
      assert SpacedAttributes(attrs, gs) + tag == one + (rest + tag);
      HasAtConcat(s, p, one, rest + tag);
      ParseSpacedAttributes(s, p + |one|, attrs[1..], Others(gs), tag);
      ParseSpacedAttribute(s, p, name, value, g);
      AttributeJoins(s, Skip(s, p, Space), attrs, p + |one + (rest + tag)|);
    }
  }

  lemma NoAttributes(s: Str, p: nat)
    requires Terminated(s) && p < |s| && EndsTag(s[p])
    ensures ParseAttributes(s, p) == Ok(([], p))
  {
  }

  lemma AttributeJoins(s: Str, q: nat, attrs: Attrs, end: nat)
    requires Terminated(s) && q < |s| && attrs != [] && IsAttributeName(s[q]) && ParseAttribute(s, q).Ok?
    requires var a := ParseAttribute(s, q).value;
      (a.name, a.value) == attrs[0] && ParseAttributes(s, a.next) == Ok((attrs[1..], end))
    ensures ParseAttributes(s, q) == Ok((attrs, end))
  {
    hide ParseAttribute;
    assert attrs == [attrs[0]] + attrs[1..];
  }

  /** The places in a spaced attribute: name, white space, equals sign, white space, quote, value, quote. */
  datatype Places = Places(name: nat, eq: nat, quote: nat, end: nat)

  function PlacesOf(p: nat, name: Str, value: Str, g: AttributeGap): Places {
    var at := p + |g.before|;
    var eq := at + |name| + |g.left|;
    var quote := eq + 1 + |g.right|;
    Places(at, eq, quote, quote + 1 + |Escape(value, QuoteFor(value).1)|)
  }

  lemma AttributeParts(s: Str, p: nat, name: Str, value: Str, g: AttributeGap)
    requires HasAt(s, p, SpacedAttribute(name, value, g))
    ensures var at, (quote, noexpand) := PlacesOf(p, name, value, g), QuoteFor(value);
      && at.end + 1 == p + |SpacedAttribute(name, value, g)| <= |s|
      && HasAt(s, p, g.before) && HasAt(s, at.name, name) && HasAt(s, at.name + |name|, g.left) && s[at.eq] == '='
      && HasAt(s, at.eq + 1, g.right) && s[at.quote] == quote
      && HasAt(s, at.quote + 1, Escape(value, noexpand)) && s[at.end] == quote
  {
    hide HasAt, Escape, QuoteFor;
    var (quote, noexpand) := QuoteFor(value);
    var e, at := Escape(value, noexpand), PlacesOf(p, name, value, g);
    var head := g.before + name + g.left;
    HasAtConcat(s, p, head + "=" + g.right + [quote] + e, [quote]);
    HasAtConcat(s, p, head + "=" + g.right + [quote], e);
    HasAtConcat(s, p, head + "=" + g.right, [quote]);
    HasAtConcat(s, p, head + "=", g.right);
    HasAtConcat(s, p, head, "=");
    HasAtConcat(s, p, g.before + name, g.left);
    HasAtConcat(s, p, g.before, name);
    HasAtIndex(s, at.eq, "=", 0);
    HasAtIndex(s, at.quote, [quote], 0);
    HasAtIndex(s, at.end, [quote], 0);
  }

  lemma ParseSpacedAttribute(s: Str, p: nat, name: Str, value: Str, g: AttributeGap)
    requires Terminated(s) && HasAt(s, p, SpacedAttribute(name, value, g)) && IsAttribute(name) && NulFree(value)
    requires g.before != [] && White(g.before) && White(g.left) && White(g.right)
    requires p + |SpacedAttribute(name, value, g)| < |s|
    ensures p <= Skip(s, p, Space) < |s| && IsAttributeName(s[Skip(s, p, Space)])
    ensures ParseAttribute(s, Skip(s, p, Space)) ==
      Ok(Attribute(name, value, Skip(s, p + |SpacedAttribute(name, value, g)|, Space)))
  {
    hide *;
    AttributeParts(s, p, name, value, g);
    var at := PlacesOf(p, name, value, g);
    PlacesInOrder(p, name, value, g);
    QuoteIs(value);
    NamePart(s, p, name, g, at);
    ValuePart(s, at.quote + 1, value, QuoteFor(value).0, QuoteFor(value).1);
    NameSlice(s, at.name, name);
    AttributeRound(s, at, at.name + |name|, value);
  }

  lemma PlacesInOrder(p: nat, name: Str, value: Str, g: AttributeGap)
    ensures var at := PlacesOf(p, name, value, g);
      && at.name == p + |g.before| && at.eq == at.name + |name| + |g.left| && at.quote == at.eq + 1 + |g.right|
      && at.end == at.quote + 1 + |Escape(value, QuoteFor(value).1)|
  {
  }

  lemma QuoteIs(value: Str)
    ensures (QuoteFor(value).0 == '\'' || QuoteFor(value).0 == '"') && !IsSpace(QuoteFor(value).0)
  {
  }

  lemma NamePart(s: Str, p: nat, name: Str, g: AttributeGap, at: Places)
    requires Terminated(s) && HasAt(s, p, g.before) && HasAt(s, at.name, name) && HasAt(s, at.name + |name|, g.left)
    requires HasAt(s, at.eq + 1, g.right) && IsAttribute(name) && White(g.before) && White(g.left) && White(g.right)
    requires at.name == p + |g.before| && at.eq == at.name + |name| + |g.left| && at.quote == at.eq + 1 + |g.right|
    requires at.quote < |s| && s[at.eq] == '=' && !IsSpace(s[at.quote])
    ensures Skip(s, p, Space) == at.name && at.name + 1 < |s| && IsAttributeName(s[at.name])
    ensures Skip(s, at.name + 1, AttributeName) == at.name + |name|
    ensures Skip(s, at.name + |name|, Space) == at.eq && Skip(s, at.eq + 1, Space) == at.quote
  {
    hide HasAt, Skip, White, IsAttribute, AllIn;
    Classes(name);
    Classes(g.left);
    FirstOf(s, at.name, name, AttributeName);
    SkipWhite(s, p, g.before);
    if g.left != [] { FirstOf(s, at.name + |name|, g.left, Space); }
    SkipTail(s, at.name, name, AttributeName);
    SkipWhite(s, at.name + |name|, g.left);
    SkipWhite(s, at.eq + 1, g.right);
  }

  lemma ValuePart(s: Str, p: nat, value: Str, quote: Ch, noexpand: Ch)
    requires Terminated(s) && NulFree(value) && (quote, noexpand) == QuoteFor(value)
    requires HasAt(s, p, Escape(value, noexpand)) && p + |Escape(value, noexpand)| < |s|
    requires s[p + |Escape(value, noexpand)|] == quote
    ensures Expand(s, p, quote) == Ok((value, p + |Escape(value, noexpand)|))
  {
    hide Expand, Escape, HasAt;
    QuoteNotInside(value, quote, noexpand);
    ExpandEscaped(s, p, value, noexpand, quote, []);
    assert [] + value == value;
  }

  lemma AttributeRound(s: Str, at: Places, nameEnd: nat, value: Str)
    requires Terminated(s) && at.name < nameEnd <= at.eq < at.quote < at.end < |s| - 1
    requires IsAttributeName(s[at.name]) && Skip(s, at.name + 1, AttributeName) == nameEnd
    requires Skip(s, nameEnd, Space) == at.eq && s[at.eq] == '=' && Skip(s, at.eq + 1, Space) == at.quote
    requires (s[at.quote] == '\'' || s[at.quote] == '"') && s[at.end] == s[at.quote]
    requires Expand(s, at.quote + 1, s[at.quote]) == Ok((value, at.end))
    ensures ParseAttribute(s, at.name) == Ok(Attribute(s[at.name..nameEnd], value, Skip(s, at.end + 1, Space)))
  {
    hide Expand, Skip;
  }

  lemma NameSlice(s: Str, p: nat, name: Str)
    requires HasAt(s, p, name)
    ensures s[p..p + |name|] == name
  {
  }

  lemma FirstOf(s: Str, p: nat, t: Str, k: Class)
    requires HasAt(s, p, t) && t != [] && AllIn(k, t)
    ensures InClass(k, s[p])
  {
    HasAtIndex(s, p, t, 0);
    assert t[0] in t;
  }

  lemma SkipTail(s: Str, p: nat, t: Str, k: Class)
    requires Terminated(s) && HasAt(s, p, t) && t != [] && AllIn(k, t)
    requires p + |t| < |s| && !InClass(k, s[p + |t|])
    ensures Skip(s, p + 1, k) == p + |t|
  {
    SkipText(s, p, t, k);
  }

  // ----- leaf nodes behind `<`

  /** The start of a special node: what follows `<` up to the value. */
  lemma LeadingPart(s: Str, p: nat, lead: Str, value: Str, marker: Str)
    requires HasAt(s, p, lead + value + marker)
    ensures HasAt(s, p, lead) && HasAt(s, p + |lead|, value + marker) && HasAt(s, p + |lead|, value)
    ensures HasAt(s, p + |lead| + |value|, marker)
  {
    HasAtConcat(s, p, lead + value, marker);
    HasAtConcat(s, p, lead, value);
    HasAtConcat(s, p + |lead|, value, marker);
  }

  lemma Starts(s: Str, p: nat, t: Str)
    requires HasAt(s, p, t) && |t| >= 2
    ensures At(s, p) == t[0] && At(s, p + 1) == t[1]
    ensures |t| >= 3 ==> At(s, p + 2) == t[2]
  {
    HasAtIndex(s, p, t, 0);
    HasAtIndex(s, p, t, 1);
    if |t| >= 3 { HasAtIndex(s, p, t, 2); }
  }

  lemma PrintedComment(s: Str, p: nat, value: Str, flags: Flags)
    requires Terminated(s) && NulFree(value) && Without(value, "-->") && HasAt(s, p, Print(Comment(value)))
    ensures p + 1 < |s|
    ensures ParseNode(s, p + 1, flags) ==
      Ok((Keep(flags.comments, Comment(value)), p + |Print(Comment(value))|))
  {
    hide HasAt, Scan, ParseElement;
    LeadingPart(s, p, "<!--", value, "-->");
    LastNotNul(s, p + 4 + |value|, "-->");
    HasAtConcat(s, p, "<", "!--");
    assert "<" + "!--" == "<!--";
    Starts(s, p + 1, "!--");
    ScanFinds(s, p + 4, value, "-->");
  }

  lemma PrintedCData(s: Str, p: nat, value: Str, flags: Flags)
    requires Terminated(s) && NulFree(value) && Without(value, "]]>") && HasAt(s, p, Print(CData(value)))
    ensures p + 1 < |s|
    ensures ParseNode(s, p + 1, flags) ==
      Ok((Keep(!flags.noDataNodes, CData(value)), p + |Print(CData(value))|))
  {
    hide HasAt, Scan, ParseElement;
    LeadingPart(s, p, "<![CDATA[", value, "]]>");
    LastNotNul(s, p + 9 + |value|, "]]>");
    HasAtConcat(s, p, "<", "![CDATA[");
    assert "<" + "![CDATA[" == "<![CDATA[";
    Starts(s, p + 1, "![CDATA[");
    NotHere(s, p + 1, "!--", 1);
    ScanFinds(s, p + 9, value, "]]>");
  }

  lemma NotHere(s: Str, p: nat, t: Str, i: nat)
    requires i < |t| && At(s, p + i) != t[i]
    ensures !HasAt(s, p, t)
  {
    if HasAt(s, p, t) { HasAtIndex(s, p, t, i); }
  }

  lemma {:induction false} DoctypeEndsBehind(s: Str, p: nat, t: Str, depth: nat)
    requires Terminated(s) && DoctypeText(t, depth) && HasAt(s, p, t) && p + |t| < |s| && s[p + |t|] == '>'
    ensures DoctypeEnd(s, p, depth) == Ok(p + |t|)
    decreases |t|
  {
    if t != [] {
      HasAtIndex(s, p, t, 0);
      HasAtConcat(s, p, [t[0]], t[1..]);
      assert [t[0]] + t[1..] == t;
      var inner := if t[0] == '[' then depth + 1 else if t[0] == ']' && depth > 0 then depth - 1 else depth;
      DoctypeEndsBehind(s, p + 1, t[1..], inner);
    }
  }

  lemma PrintedDoctype(s: Str, p: nat, value: Str, flags: Flags)
    requires Terminated(s) && DoctypeText(value, 0) && HasAt(s, p, Print(Doctype(value)))
    ensures p + 1 < |s|
    ensures ParseNode(s, p + 1, flags) ==
      Ok((Keep(flags.doctypes, Doctype(value)), p + |Print(Doctype(value))|))
  {
    hide HasAt, Scan, ParseElement, DoctypeEnd, DoctypeText;
    LeadingPart(s, p, "<!DOCTYPE ", value, ">");
    LastNotNul(s, p + 10 + |value|, ">");
    HasAtIndex(s, p + 10 + |value|, ">", 0);
    HasAtConcat(s, p, "<", "!DOCTYPE ");
    assert "<" + "!DOCTYPE " == "<!DOCTYPE ";
    HasAtConcat(s, p + 1, "!DOCTYPE", " ");
    assert "!DOCTYPE" + " " == "!DOCTYPE ";
    HasAtIndex(s, p + 9, " ", 0);
    Starts(s, p + 1, "!DOCTYPE");
    NotHere(s, p + 1, "!--", 1);
    NotHere(s, p + 1, "![CDATA[", 1);
    DoctypeEndsBehind(s, p + 10, value, 0);
    NameSlice(s, p + 10, value);
  }

  lemma PrintedPi(s: Str, p: nat, name: Str, value: Str, flags: Flags)
    requires Terminated(s) && Normal(Pi(name, value)) && HasAt(s, p, Print(Pi(name, value)))
    ensures p + 1 < |s|
    ensures ParseNode(s, p + 1, flags) ==
      Ok((Keep(flags.pis, Pi(name, value)), p + |Print(Pi(name, value))|))
  {
    hide *;
    PiParts(s, p, name, value);
    PiIsNoDeclaration(s, p + 1, name);
    PiNameSkipped(s, p + 2, name, value);
    PiScanned(s, p, name, value);
    NameSlice(s, p + 2, name);
    NameSlice(s, p + 3 + |name|, value);
    PiRound(s, p + 1, name, value, flags);
  }

  lemma PiParts(s: Str, p: nat, name: Str, value: Str)
    requires Terminated(s) && Normal(Pi(name, value)) && HasAt(s, p, Print(Pi(name, value)))
    ensures |Print(Pi(name, value))| == |name| + |value| + 5 && p + |name| + |value| + 5 < |s|
    ensures name != [] && AllIn(NodeName, name) && !IsXmlName(name)
    ensures s[p + 1] == '?' && HasAt(s, p + 2, name) && s[p + 2 + |name|] == ' '
    ensures HasAt(s, p + 3 + |name|, value) && HasAt(s, p + 3 + |name|, value + "?>") &&
      HasAt(s, p + 3 + |name| + |value|, "?>")
  {
    hide HasAt, AllIn, IsXmlName, Without, IsName;
    Classes(name);
    LeadingPart(s, p, "<?" + name + " ", value, "?>");
    HasAtConcat(s, p, "<?" + name, " ");
    HasAtConcat(s, p, "<?", name);
    HasAtIndex(s, p, "<?", 1);
    HasAtIndex(s, p + 2 + |name|, " ", 0);
    LastNotNul(s, p + 3 + |name| + |value|, "?>");
  }

  lemma PiIsNoDeclaration(s: Str, p: nat, name: Str)
    requires Terminated(s) && HasAt(s, p + 1, name) && AllIn(NodeName, name) && !IsXmlName(name)
    requires p + 1 + |name| < |s| && s[p + 1 + |name|] == ' '
    ensures !AtDeclaration(s, p)
  {
    forall i | 0 <= i < |name| ensures s[p + 1 + i] == name[i] && IsNodeName(name[i]) {
      HasAtIndex(s, p + 1, name, i);
      assert name[i] in name;
    }
    if |name| == 0 { assert s[p + 1] == ' '; }
    if |name| == 1 { assert s[p + 2] == ' '; }
    if |name| == 2 { assert s[p + 3] == ' '; }
    if |name| > 3 { assert s[p + 4] == name[3]; }
  }

  lemma PiNameSkipped(s: Str, p: nat, name: Str, value: Str)
    requires Terminated(s) && HasAt(s, p, name) && name != [] && AllIn(NodeName, name) && Normal(Pi(name, value))
    requires p + |name| < |s| && s[p + |name|] == ' '
    requires HasAt(s, p + |name| + 1, value) && HasAt(s, p + |name| + 1 + |value|, "?>")
    ensures p + |name| + 1 < |s|
    ensures Skip(s, p, NodeName) == p + |name| && Skip(s, p + |name|, Space) == p + |name| + 1
  {
    hide Skip, HasAt, AllIn, Without, IsName, SpaceChar;
    SkipText(s, p, name, NodeName);
    HasAtIndex(s, p + |name| + 1 + |value|, "?>", 0);
    if value != [] {
      HasAtIndex(s, p + |name| + 1, value, 0);
      Tables(value[0]);
    }
    SkipExact(s, p + |name|, p + |name| + 1, Space);
  }

  lemma PiScanned(s: Str, p: nat, name: Str, value: Str)
    requires Terminated(s) && Normal(Pi(name, value)) && p + |name| + |value| + 5 < |s|
    requires HasAt(s, p + 2, name) && s[p + 2 + |name|] == ' '
    requires HasAt(s, p + 3 + |name|, value + "?>")
    ensures Scan(s, p + 3 + |name|, "?>") == Ok(p + 3 + |name| + |value|)
    ensures Scan(s, p + 2, "?>") == Ok(p + 3 + |name| + |value|)
  {
    hide Scan, HasAt, Without, IsName, AllIn, White, IsXmlName;
    Classes(name);
    PiEnd(s, p + 3 + |name|, value);
    ScanPastName(s, p + 2, p + 2, name, p + 3 + |name| + |value|);
  }

  /** No character of a target can start the closing marker, nor can the space behind it. */
  lemma {:induction false} ScanPastName(s: Str, p: nat, q: nat, name: Str, end: nat)
    requires Terminated(s) && HasAt(s, p, name) && AllIn(NodeName, name) && p <= q <= p + |name| < |s| - 1
    requires s[p + |name|] == ' ' && Scan(s, p + |name| + 1, "?>") == Ok(end)
    ensures Scan(s, q, "?>") == Ok(end)
    decreases p + |name| - q
  {
    if q < p + |name| {
      HasAtIndex(s, p, name, q - p);
      assert name[q - p] in name;
      NotHere(s, q, "?>", 0);
      ScanPastName(s, p, q + 1, name, end);
    } else {
      NotHere(s, q, "?>", 0);
    }
  }

  lemma NodeIsPi(s: Str, p: nat, flags: Flags)
    requires Terminated(s) && p + 1 < |s| && s[p] == '?' && !AtDeclaration(s, p)
    ensures ParseNode(s, p, flags) == ParsePi(s, p + 1, flags)
  {
    hide ParsePi, ParseElement, AtDeclaration;
  }

  lemma PiRound(s: Str, p: nat, name: Str, value: Str, flags: Flags)
    requires Terminated(s) && p + |name| + |value| + 4 < |s| && s[p] == '?' && !AtDeclaration(s, p) && name != []
    requires Skip(s, p + 1, NodeName) == p + 1 + |name| && Skip(s, p + 1 + |name|, Space) == p + 2 + |name|
    requires Scan(s, p + 2 + |name|, "?>") == Scan(s, p + 1, "?>") == Ok(p + 2 + |name| + |value|)
    requires s[p + 1..p + 1 + |name|] == name && s[p + 2 + |name|..p + 2 + |name| + |value|] == value
    ensures ParseNode(s, p, flags) == Ok((Keep(flags.pis, Pi(name, value)), p + |name| + |value| + 4))
  {
    hide Scan, Skip, ParseNode, AtDeclaration, Terminated;
    NodeIsPi(s, p, flags);
  }

  /** The parts of a processing instruction as the parser delimits them. */
  ghost predicate PiText(target: Str, white: Str, value: Str) {
    && IsName(target) && White(white) && NulFree(value) && Without(value, "?>")
    && (value != [] ==> !SpaceChar(value[0]) && (white == [] ==> !NameChar(value[0])))
  }

  /** The value of the text is read exactly when white space separates it from the target, terminators are off, or
      it is empty. */
  lemma PiValueRead(s: Str, p: nat, target: Str, white: Str, value: Str, flags: Flags)
    requires Terminated(s) && HasAt(s, p, target + white + value + "?>") && PiText(target, white, value) && flags.pis
    ensures p < |s| && ParsePi(s, p, flags).Ok? && ParsePi(s, p, flags).value.0.Some?
    ensures var pi := ParsePi(s, p, flags).value.0.value;
      && pi.Pi? && pi.name == target && |pi.value| == |value|
      && (pi.value == value <==> white != [] || flags.noTerminators || value == [])
  {
    hide HasAt, Scan, Skip, Without, AllIn;
    var start := p + |target| + |white|;
    PiDelimited(s, p, target, white, value);
    NameSlice(s, p, target);
    NameSlice(s, start, value);
    if value != [] { assert ([NUL] + value[1..])[0] == NUL; }
  }

  lemma PiDelimited(s: Str, p: nat, target: Str, white: Str, value: Str)
    requires Terminated(s) && HasAt(s, p, target + white + value + "?>") && PiText(target, white, value)
    ensures p + |target| + |white| + |value| < |s|
    ensures Skip(s, p, NodeName) == p + |target| && Skip(s, p + |target|, Space) == p + |target| + |white|
    ensures HasAt(s, p, target) && HasAt(s, p + |target| + |white|, value)
    ensures Scan(s, p + |target| + |white|, "?>") == Ok(p + |target| + |white| + |value|)
  {
    hide *;
    PiSplit(s, p, target, white, value);
    PiBounds(s, p, target, white, value);
    SkipText(s, p, target, NodeName);
    SkipText(s, p + |target|, white, Space);
    PiEnd(s, p + |target| + |white|, value);
  }

  lemma PiEnd(s: Str, p: nat, value: Str)
    requires Terminated(s) && p < |s| && HasAt(s, p, value + "?>") && NulFree(value) && Without(value, "?>")
    ensures Scan(s, p, "?>") == Ok(p + |value|)
  {
    hide HasAt, Scan, Without;
    assert "?>"[..1] == "?";
    ScanFinds(s, p, value, "?>");
  }

  lemma PiSplit(s: Str, p: nat, target: Str, white: Str, value: Str)
    requires HasAt(s, p, target + white + value + "?>")
    ensures HasAt(s, p, target) && HasAt(s, p + |target|, white) && HasAt(s, p + |target| + |white|, value)
    ensures HasAt(s, p + |target| + |white|, value + "?>") && HasAt(s, p + |target| + |white| + |value|, "?>")
  {
    hide HasAt;
    LeadingPart(s, p, target + white, value, "?>");
    HasAtConcat(s, p, target, white);
  }

  lemma PiBounds(s: Str, p: nat, target: Str, white: Str, value: Str)
    requires Terminated(s) && PiText(target, white, value)
    requires HasAt(s, p + |target|, white) && HasAt(s, p + |target| + |white|, value)
    requires HasAt(s, p + |target| + |white| + |value|, "?>")
    ensures AllIn(NodeName, target) && AllIn(Space, white) && NulFree(value) && Without(value, "?>")
    ensures p + |target| + |white| + |value| < |s|
    ensures !InClass(NodeName, s[p + |target|]) && !InClass(Space, s[p + |target| + |white|])
  {
    hide HasAt, Without, AllIn, IsName, White, SpaceChar, NameChar;
    Classes(target);
    Classes(white);
    var start := p + |target| + |white|;
    HasAtIndex(s, start + |value|, "?>", 0);
    if value != [] {
      HasAtIndex(s, start, value, 0);
      Tables(value[0]);
    }
    if white != [] { FirstOf(s, p + |target|, white, Space); }
  }

  /** The instruction `a/b` loses the slash to the terminator of its target. */
  lemma BrokenPi(flags: Flags)
    requires flags.pis && !flags.noTerminators
    ensures ParsePi("a/b?>" + [NUL], 0, flags) == Ok((Some(Pi("a", [NUL] + "b")), 5))
  {
    hide Scan, Skip;
    var s := "a/b?>" + [NUL];
    SkipExact(s, 0, 1, NodeName);
    SkipExact(s, 1, 1, Space);
    assert s[1..1 + |"/b?>"|] == "/b" + "?>" == "/b?>";
    assert "?>"[..1] == "?";
    forall i: nat ensures !HasAt("/b", i, "?>") { if HasAt("/b", i, "?>") { HasAtIndex("/b", i, "?>", 1); } }
    ScanFinds(s, 1, "/b", "?>");
    assert s[0..1] == "a" && "/b"[1..] == "b";
  }

  lemma {:induction false} EscapeFree(t: Str, noexpand: Ch)
    requires NulFree(t) && noexpand != '>'
    ensures '>' !in Escape(t, noexpand) && NulFree(Escape(t, noexpand))
  {
    if t != [] {
      EscapeFree(t[1..], noexpand);
      var e := EscapeChar(t[0], noexpand);
      assert '>' !in e && NUL !in e;
    }
  }

  lemma WhiteFree(t: Str)
    requires White(t)
    ensures '>' !in t && '?' !in t && NulFree(t)
  {
  }

  lemma {:induction false} AttributesFree(attrs: Attrs, gs: seq<AttributeGap>)
    requires NormalAttributes(attrs) && AttributesFit(attrs, gs)
    ensures '>' !in SpacedAttributes(attrs, gs) && NulFree(SpacedAttributes(attrs, gs))
  {
    hide White;
    if attrs != [] {
      var (name, value) := attrs[0];
      assert (name, value) in attrs;
      var g := FirstAttribute(gs);
      AttributeFree(name, value, g);
      AttributesFree(attrs[1..], Others(gs));
    }
  }

  lemma AttributeFree(name: Str, value: Str, g: AttributeGap)
    requires IsAttribute(name) && NulFree(value) && White(g.before) && White(g.left) && White(g.right)
    ensures '>' !in SpacedAttribute(name, value, g) && NulFree(SpacedAttribute(name, value, g))
  {
    hide White, Escape;
    EscapeFree(value, QuoteFor(value).1);
    WhiteFree(g.before);
    WhiteFree(g.left);
    WhiteFree(g.right);
  }

  lemma AttributesStart(attrs: Attrs, gs: seq<AttributeGap>, tag: Str) returns (c: Ch, t: Str)
    requires attrs != [] && NormalAttributes(attrs) && AttributesFit(attrs, gs) && White(tag)
    ensures SpacedAttributes(attrs, gs) + tag == [c] + t && IsSpace(c) && NulFree(t) && Without(t, "?>")
  {
    hide Escape, QuoteFor, White;
    AttributesFree(attrs, gs);
    WhiteFree(tag);
    var all := SpacedAttributes(attrs, gs) + tag;
    c, t := all[0], all[1..];
    assert all == [c] + t;
    var g := FirstAttribute(gs);
    assert SpacedAttribute(attrs[0].0, attrs[0].1, g)[0] == g.before[0];
    Classes(g.before);
    assert g.before[0] in g.before;
    forall i: nat ensures !HasAt(t, i, "?>") {
      if HasAt(t, i, "?>") { HasAtIndex(t, i, "?>", 1); }
    }
  }

  lemma SpacedDeclaration(s: Str, p: nat, attrs: Attrs, g: Gap, flags: Flags)
    requires Terminated(s) && attrs != [] && NormalAttributes(attrs) && GapFits(Declaration(attrs), g)
    requires HasAt(s, p, SpacedNode(Declaration(attrs), g))
    ensures p + 1 < |s| && s[p] == '<' && s[p + 1] != '/'
    ensures ParseNode(s, p + 1, flags) ==
      Ok((Keep(flags.declarations, Declaration([])), p + |SpacedNode(Declaration(attrs), g)|))
  {
    hide HasAt, Scan, Skip, ParseElement, SpacedAttributes, ParseAttributes, NormalAttributes, White, AttributesFit;
    var c, t := AttributesStart(attrs, g.attrs, g.tag);
    var n := |t|;
    var all := SpacedAttributes(attrs, g.attrs) + g.tag;
    assert SpacedNode(Declaration(attrs), g) == "<?xml" + all + "?>";
    LeadingPart(s, p, "<?xml", all, "?>");
    LastNotNul(s, p + 6 + n, "?>");
    HasAtIndex(s, p + 6 + n, "?>", 0);
    HasAtIndex(s, p, "<?xml", 0);
    DeclarationAhead(s, p, c, t);
    ParseSpacedAttributes(s, p + 5, attrs, g.attrs, g.tag);
    SkipOne(s, p + 5);
    HasAtConcat(s, p + 5, [c], t);
    HasAtConcat(s, p + 6, t, "?>");
    assert "?>"[..1] == "?";
    ScanFinds(s, p + 6, t, "?>");
  }

  lemma SkipOne(s: Str, p: nat)
    requires Terminated(s) && p + 1 < |s| && IsSpace(s[p])
    ensures Skip(s, p, Space) == Skip(s, p + 1, Space)
  {
  }

  lemma DeclarationAhead(s: Str, p: nat, c: Ch, t: Str)
    requires HasAt(s, p, "<?xml") && HasAt(s, p + 5, [c] + t) && IsSpace(c)
    ensures p + 5 < |s| && s[p + 5] == c && AtDeclaration(s, p + 1)
  {
    HasAtIndex(s, p, "<?xml", 1);
    HasAtIndex(s, p, "<?xml", 2);
    HasAtIndex(s, p, "<?xml", 3);
    HasAtIndex(s, p, "<?xml", 4);
    HasAtIndex(s, p + 5, [c] + t, 0);
  }

  // ----- elements and their contents

  lemma Tags(s: Str, p: nat, name: Str, attrs: Attrs, gs: seq<AttributeGap>, tag: Str, rest: Str)
    requires Terminated(s) && HasAt(s, p, "<" + name + SpacedAttributes(attrs, gs) + tag + rest)
    requires IsName(name) && NormalAttributes(attrs) && AttributesFit(attrs, gs) && White(tag)
    requires rest != [] && (rest[0] == '>' || rest[0] == '/')
    ensures var q := p + 1 + |name| + |SpacedAttributes(attrs, gs) + tag|;
      && q < |s| && ParseStartTag(s, p + 1) == Ok((name, q)) && HasAt(s, q, rest)
      && s[p] == '<' && s[p + 1] == name[0] && s[q] == rest[0]
  {
    hide HasAt, Skip, SpacedAttributes, ParseAttributes, NormalAttributes, AllIn, White, IsName, AttributesFit;
    var a := SpacedAttributes(attrs, gs) + tag;
    assert "<" + name + SpacedAttributes(attrs, gs) + tag + rest == "<" + name + a + rest;
    HasAtConcat(s, p, "<" + name + a, rest);
    HasAtConcat(s, p, "<" + name, a);
    HasAtConcat(s, p, "<", name);
    Classes(name);
    HasAtIndex(s, p, "<", 0);
    HasAtIndex(s, p + 1, name, 0);
    var q := p + 1 + |name| + |a|;
    HasAtIndex(s, q, rest, 0);
    AfterName(s, p + 1 + |name|, attrs, gs, tag);
    SkipText(s, p + 1, name, NodeName);
    ParseSpacedAttributes(s, p + 1 + |name|, attrs, gs, tag);
  }

  lemma AfterName(s: Str, p: nat, attrs: Attrs, gs: seq<AttributeGap>, tag: Str)
    requires AttributesFit(attrs, gs) && White(tag) && HasAt(s, p, SpacedAttributes(attrs, gs) + tag)
    requires p + |SpacedAttributes(attrs, gs) + tag| < |s|
    requires s[p + |SpacedAttributes(attrs, gs) + tag|] == '>' || s[p + |SpacedAttributes(attrs, gs) + tag|] == '/'
    ensures !IsNodeName(s[p])
  {
    hide White, HasAt, Escape;
    if attrs != [] {
      var g, all := FirstAttribute(gs), SpacedAttributes(attrs, gs) + tag;
      assert all[0] == SpacedAttribute(attrs[0].0, attrs[0].1, g)[0] == g.before[0];
      WhiteFirst(s, p, all, g.before);
    } else if tag != [] {
      assert SpacedAttributes(attrs, gs) + tag == tag;
      WhiteFirst(s, p, tag, tag);
    }
  }

  lemma WhiteFirst(s: Str, p: nat, all: Str, white: Str)
    requires HasAt(s, p, all) && white != [] && White(white) && all != [] && all[0] == white[0]
    ensures IsSpace(s[p])
  {
    HasAtIndex(s, p, all, 0);
    assert white[0] in white;
    Tables(white[0]);
  }

  /** What a closing tag leads to: the end of the contents, or an error when it is validated and has another name. */
  function Closed(name: Str, closing: Str, end: nat, flags: Flags): Result<(seq<Node>, nat)> {
    if flags.validateClosing && closing != name then Err("invalid closing tag name") else Ok(([], end))
  }

  lemma ClosingTag(s: Str, p: nat, last: Str, name: Str, closing: Str, close: Str, flags: Flags)
    requires Terminated(s) && HasAt(s, p, last + ("</" + closing + close + ">"))
    requires White(last) && White(close) && IsName(closing)
    ensures var end := p + |last| + |closing| + |close| + 3;
      && end < |s| && s[p + |last|] == '<' && s[p + |last| + 1] == '/'
      && ParseContents(s, p, name, flags) == Closed(name, closing, end, flags)
  {
    hide HasAt, Skip, AllIn, ParseNode, ParseClosing, White, IsName;
    var q := p + |last|;
    ClosingParts(s, q, p, last, closing, close);
    SkipWhite(s, p, last);
    ClosingRead(s, q + 2, name, closing, close, flags);
  }

  lemma ClosingRead(s: Str, q: nat, name: Str, closing: Str, close: Str, flags: Flags)
    requires Terminated(s) && q + |closing| + |close| + 1 < |s| && White(close) && IsName(closing)
    requires HasAt(s, q, closing) && HasAt(s, q + |closing|, close) && s[q + |closing| + |close|] == '>'
    ensures ParseClosing(s, q, name, flags) ==
      if flags.validateClosing && closing != name then Err("invalid closing tag name")
      else Ok(q + |closing| + |close| + 1)
  {
    hide HasAt, Skip, AllIn, White, IsName;
    Classes(closing);
    Classes(close);
    if close != [] { FirstOf(s, q + |closing|, close, Space); }
    SkipText(s, q, closing, NodeName);
    SkipWhite(s, q + |closing|, close);
    NameSlice(s, q, closing);
  }

  lemma ClosingParts(s: Str, q: nat, p: nat, last: Str, closing: Str, close: Str)
    requires Terminated(s) && HasAt(s, p, last + ("</" + closing + close + ">")) && q == p + |last|
    ensures q + |closing| + |close| + 3 < |s| && HasAt(s, p, last) && s[q] == '<' && s[q + 1] == '/'
    ensures HasAt(s, q + 2, closing) && HasAt(s, q + 2 + |closing|, close) && s[q + 2 + |closing| + |close|] == '>'
  {
    hide HasAt;
    HasAtConcat(s, p, last, "</" + closing + close + ">");
    HasAtConcat(s, q, "</" + closing + close, ">");
    HasAtConcat(s, q, "</" + closing, close);
    HasAtConcat(s, q, "</", closing);
    HasAtIndex(s, q, "</", 0);
    HasAtIndex(s, q, "</", 1);
    HasAtIndex(s, q + 2 + |closing| + |close|, ">", 0);
    LastNotNul(s, q + 2 + |closing| + |close|, ">");
  }

  /** A node in front of what was parsed. */
  function Prepend(child: Option<Node>, r: Result<(seq<Node>, nat)>): Result<(seq<Node>, nat)> {
    if r.Ok? then Ok((Listed(child) + r.value.0, r.value.1)) else r
  }

  /** One round of the contents loop at a child node. */
  lemma ChildRound(s: Str, p: nat, q: nat, name: Str, flags: Flags, child: Option<Node>, next: nat)
    requires Terminated(s) && p < |s| && q == Skip(s, p, Space) < |s| - 1 && s[q] == '<' && s[q + 1] != '/'
    requires next < |s| && ParseNode(s, q + 1, flags) == Ok((child, next))
    ensures ParseContents(s, p, name, flags) == Prepend(child, ParseContents(s, next, name, flags))
  {
    hide ParseNode, ParseClosing, Skip;
  }

  /** One round of the contents loop at character data. */
  lemma DataRound(s: Str, p: nat, name: Str, flags: Flags, value: Str, next: nat)
    requires Terminated(s) && p < |s| && next < |s|
    requires s[Skip(s, p, Space)] != '<' && s[Skip(s, p, Space)] != NUL
    requires Expand(s, p, '<') == Ok((value, next))
    ensures ParseContents(s, p, name, flags) ==
      Prepend(Keep(!flags.noDataNodes, Data(value)), ParseContents(s, next, name, flags))
  {
    hide ParseNode, ParseClosing, Expand, Skip;
  }

  lemma {:induction false} EscapeNotWhite(t: Str) returns (i: nat)
    requires !White(t)
    ensures i < |Escape(t, NUL)| && !IsSpace(Escape(t, NUL)[i])
  {
    var e := EscapeChar(t[0], NUL);
    Tables(t[0]);
    if IsSpace(t[0]) {
      assert !White(t[1..]) by {
        var c :| c in t && !SpaceChar(c);
        assert c in t[1..];
      }
      i := EscapeNotWhite(t[1..]);
      i := |e| + i;
    } else {
      i := 0;
      assert Escape(t, NUL)[0] == e[0];
    }
  }

  /** Printed data is recognised as data: the first character that is not white space belongs to it. */
  lemma DataAhead(s: Str, p: nat, value: Str)
    requires Terminated(s) && NulFree(value) && !White(value) && HasAt(s, p, Escape(value, NUL))
    requires p + |Escape(value, NUL)| < |s|
    ensures s[Skip(s, p, Space)] != '<' && s[Skip(s, p, Space)] != NUL
  {
    hide Escape, HasAt, Skip;
    var e := Escape(value, NUL);
    var i := EscapeNotWhite(value);
    HasAtIndex(s, p, e, i);
    var q := Skip(s, p, Space);
    assert !InClass(Space, s[p + i]);
    HasAtIndex(s, p, e, q - p);
    QuoteNotInside(value, '<', NUL);
    EscapeFree(value, NUL);
    assert e[q - p] in e;
  }

  /** An element whose closing tag may have another name. */
  function Opened(n: Node, g: Gap, closing: Str): Str
    requires n.Element?
  {
    "<" + n.name + SpacedAttributes(n.attrs, g.attrs) + g.tag + ">" + SpacedAll(n.children, g.inside, g.last)
    + "</" + closing + g.close + ">"
  }

  /** An element with children comes back, unless its closing tag is validated and has another name. */
  lemma OpenedElement(s: Str, p: nat, n: Node, g: Gap, closing: Str, flags: Flags)
    requires Terminated(s) && n.Element? && IsName(n.name) && n.name[0] != '!' && NormalAttributes(n.attrs)
    requires NormalAll(n.children) && GapFits(n, g) && IsName(closing) && HasAt(s, p, Opened(n, g, closing))
    ensures p + 1 < |s| && s[p] == '<' && s[p + 1] != '/'
    ensures ParseNode(s, p + 1, flags) ==
      if flags.validateClosing && closing != n.name then Err("invalid closing tag name")
      else Ok((Seen(flags, n), p + |Opened(n, g, closing)|))
    decreases n, 0
  {
    hide HasAt, ParseStartTag, ParseContents, SpacedAttributes, SpacedAll, White, IsName, NormalAttributes;
    hide NormalAll, Visible, GapsFit, AttributesFit;
    var name, a := n.name, SpacedAttributes(n.attrs, g.attrs) + g.tag;
    FirstIsName(name);
    var body, close := SpacedAll(n.children, g.inside, g.last), "</" + closing + g.close + ">";
    var all := Opened(n, g, closing);
    assert all == "<" + name + SpacedAttributes(n.attrs, g.attrs) + g.tag + (">" + (body + close));
    var q := p + 1 + |name| + |a|;
    Tags(s, p, name, n.attrs, g.attrs, g.tag, ">" + (body + close));
    HasAtConcat(s, q, ">", body + close);
    assert |all| == 1 + |name| + |a| + 1 + |body| + |close|;
    SpacedContents(s, q + 1, n.children, g.inside, g.last, name, closing, g.close, flags, false);
    assert Listed(None) + Visible(flags, n.children) == Visible(flags, n.children);
  }

  lemma SpacedElement(s: Str, p: nat, n: Node, g: Gap, flags: Flags)
    requires Terminated(s) && Normal(n) && n.Element? && GapFits(n, g) && HasAt(s, p, SpacedNode(n, g))
    ensures p + 1 < |s| && s[p] == '<' && s[p + 1] != '/'
    ensures ParseNode(s, p + 1, flags) == Ok((Seen(flags, n), p + |SpacedNode(n, g)|))
    decreases n, 1
  {
    hide HasAt, ParseStartTag, ParseContents, SpacedAttributes, SpacedAll, White, IsName, NormalAttributes;
    hide NormalAll, Visible, GapsFit, AttributesFit;
    if n.children == [] {
      FirstIsName(n.name);
      Tags(s, p, n.name, n.attrs, g.attrs, g.tag, "/>");
      var q := p + 1 + |n.name| + |SpacedAttributes(n.attrs, g.attrs) + g.tag|;
      HasAtIndex(s, q, "/>", 1);
      NothingVisible(flags);
    } else {
      assert SpacedNode(n, g) == Opened(n, g, n.name);
      OpenedElement(s, p, n, g, n.name, flags);
    }
  }

  lemma FirstIsName(name: Str)
    requires IsName(name)
    ensures name[0] != '/' && name[0] != '?'
  {
    assert name[0] in name;
  }

  lemma NothingVisible(flags: Flags)
    ensures Visible(flags, []) == []
  {
  }

  /** A node other than data is parsed as the node itself, up to what the flags hide. */
  lemma ParseSpacedNode(s: Str, p: nat, n: Node, g: Gap, flags: Flags)
    requires Terminated(s) && Normal(n) && !n.Data? && GapFits(n, g) && HasAt(s, p, SpacedNode(n, g))
    ensures p + 1 < |s| && s[p] == '<' && s[p + 1] != '/'
    ensures ParseNode(s, p + 1, flags) == Ok((Seen(flags, n), p + |SpacedNode(n, g)|))
    decreases n, 2
  {
    hide HasAt, ParseNode, SpacedAttributes, SpacedAll, Visible, Without, NormalAttributes, NormalAll, DoctypeText;
    hide White, IsName, AttributesFit, GapsFit;
    match n {
      case Element(_, _, _) => SpacedElement(s, p, n, g, flags);
      case CData(value) =>
        PrintedCData(s, p, value, flags);
        HasAtIndex(s, p, Print(n), 0);
        HasAtIndex(s, p, Print(n), 1);
      case Comment(value) =>
        PrintedComment(s, p, value, flags);
        HasAtIndex(s, p, Print(n), 0);
        HasAtIndex(s, p, Print(n), 1);
      case Doctype(value) =>
        PrintedDoctype(s, p, value, flags);
        HasAtIndex(s, p, Print(n), 0);
        HasAtIndex(s, p, Print(n), 1);
      case Pi(name, value) =>
        PrintedPi(s, p, name, value, flags);
        HasAtIndex(s, p, Print(n), 0);
        HasAtIndex(s, p, Print(n), 1);
      case Declaration(attrs) => SpacedDeclaration(s, p, attrs, g, flags);
    }
  }

  lemma VisibleNext(flags: Flags, ns: seq<Node>)
    ensures ns == [] ==> Visible(flags, ns) == []
    ensures ns != [] ==> Visible(flags, ns) == Listed(Seen(flags, ns[0])) + Visible(flags, ns[1..])
    ensures ns != [] && ns[0].Data? ==> Seen(flags, ns[0]) == Keep(!flags.noDataNodes, ns[0])
  {
  }

  lemma SpacedNothing(gs: seq<Gap>, last: Str)
    ensures SpacedAll([], gs, last) == last
  {
  }

  lemma SpacedParts(s: Str, p: nat, ns: seq<Node>, gs: seq<Gap>, last: Str, tail: Str)
    requires ns != [] && HasAt(s, p, SpacedAll(ns, gs, last) + tail)
    ensures var g, one := FirstGap(gs), SpacedNode(ns[0], FirstGap(gs));
      var rest, q := SpacedAll(ns[1..], Others(gs), last), p + |g.before|;
      && HasAt(s, p, g.before) && HasAt(s, q, one) && HasAt(s, q + |one|, rest + tail)
      && |SpacedAll(ns, gs, last)| == |g.before| + |one| + |rest|
  {
    hide HasAt, SpacedNode;
    var g, one := FirstGap(gs), SpacedNode(ns[0], FirstGap(gs));
    var rest := SpacedAll(ns[1..], Others(gs), last);
    assert SpacedAll(ns, gs, last) + tail == g.before + (one + (rest + tail));
    HasAtConcat(s, p, g.before, one + (rest + tail));
    HasAtConcat(s, p + |g.before|, one, rest + tail);
  }

  /** Contents and the closing tag behind them are parsed as those contents. */
  lemma SpacedContents(s: Str, p: nat, ns: seq<Node>, gs: seq<Gap>, last: Str, name: Str, closing: Str, close: Str,
      flags: Flags, afterData: bool)
    requires Terminated(s) && NormalAll(ns) && GapsFit(ns, gs, last, afterData) && White(close) && IsName(closing)
    requires HasAt(s, p, SpacedAll(ns, gs, last) + ("</" + closing + close + ">"))
    ensures p < |s| && (afterData && (ns == [] || !ns[0].Data?) ==> s[p] == '<')
    ensures ParseContents(s, p, name, flags) ==
      var end := p + |SpacedAll(ns, gs, last)| + |closing| + |close| + 3;
      if flags.validateClosing && closing != name then Err("invalid closing tag name")
      else Ok((Visible(flags, ns), end))
    decreases ns, 3
  {
    hide HasAt, ParseNode, ParseContents, Expand, SpacedNode, SpacedAll, Normal, Escape, Skip, White, IsName, GapFits;
    hide Visible, Seen;
    VisibleNext(flags, ns);
    if ns == [] {
      SpacedNothing(gs, last);
      ClosingTag(s, p, last, name, closing, close, flags);
    } else {
      var n, g, tail := ns[0], FirstGap(gs), "</" + closing + close + ">";
      var one := SpacedNode(n, g);
      var q := p + |g.before|;
      SpacedParts(s, p, ns, gs, last, tail);
      SpacedContents(s, q + |one|, ns[1..], Others(gs), last, name, closing, close, flags, n.Data?);
      if n.Data? {
        assert q == p;
        PrintedData(s, p, n.value, g);
        DataRound(s, p, name, flags, n.value, p + |one|);
      } else {
        ParseSpacedNode(s, q, n, g, flags);
        SkipWhite(s, p, g.before);
        ChildRound(s, p, q, name, flags, Seen(flags, n), q + |one|);
      }
    }
  }

  lemma PrintedData(s: Str, p: nat, value: Str, g: Gap)
    requires Terminated(s) && Normal(Data(value)) && HasAt(s, p, SpacedNode(Data(value), g))
    requires p + |SpacedNode(Data(value), g)| < |s| && s[p + |SpacedNode(Data(value), g)|] == '<'
    ensures Expand(s, p, '<') == Ok((value, p + |SpacedNode(Data(value), g)|))
    ensures s[Skip(s, p, Space)] != '<' && s[Skip(s, p, Space)] != NUL
  {
    hide HasAt, Expand, Escape, Skip, White;
    QuoteNotInside(value, '<', NUL);
    ExpandEscaped(s, p, value, NUL, '<', []);
    assert [] + value == value;
    DataAhead(s, p, value);
  }

  // ----- documents

  lemma {:induction false} SpacedTop(s: Str, p: nat, ns: seq<Node>, gs: seq<Gap>, last: Str, flags: Flags)
    requires Terminated(s) && NormalAll(ns) && GapsFit(ns, gs, last, false) && HasAt(s, p, SpacedAll(ns, gs, last))
    requires p + |SpacedAll(ns, gs, last)| == |s| - 1 && forall n :: n in ns ==> !n.Data?
    ensures ParseTop(s, p, flags) == Ok(Visible(flags, ns))
    decreases |ns|
  {
    hide HasAt, ParseNode, SpacedNode, SpacedAll, Normal, Skip, White, GapFits;
    if ns == [] {
      SpacedNothing(gs, last);
      SkipWhite(s, p, last);
    } else {
      var g := FirstGap(gs);
      var one, rest := SpacedNode(ns[0], g), SpacedAll(ns[1..], Others(gs), last);
      assert ns[0] in ns;
      assert SpacedAll(ns, gs, last) + [] == SpacedAll(ns, gs, last) && rest + [] == rest;
      SpacedParts(s, p, ns, gs, last, []);
      SpacedTop(s, p + |g.before| + |one|, ns[1..], Others(gs), last, flags);
      ParseSpacedNode(s, p + |g.before|, ns[0], g, flags);
      SkipWhite(s, p, g.before);
    }
  }

  function ByteOrderMark(bom: bool): Str { if bom then ['\U{EF}', '\U{BB}', '\U{BF}'] else [] }

  /** White space between markup and in tags means nothing, nor does a byte order mark: for every setting of the flags
      the document is parsed as the nodes the flags keep, at every level, without their attributes. */
  lemma ParseSpaced(ns: seq<Node>, gs: seq<Gap>, last: Str, bom: bool, flags: Flags)
    requires NormalAll(ns) && GapsFit(ns, gs, last, false) && forall n :: n in ns ==> !n.Data?
    ensures ParseDocument(ByteOrderMark(bom) + SpacedAll(ns, gs, last) + [NUL], flags) == Ok(Visible(flags, ns))
  {
    hide ParseTop, SpacedAll, NormalAll, GapsFit;
    var t, mark := SpacedAll(ns, gs, last), ByteOrderMark(bom);
    var s := mark + t + [NUL];
    assert s[|mark|..|mark| + |t|] == t;
    if !bom { NoByteOrderMark(ns, gs, last, s); }
    SpacedTop(s, |mark|, ns, gs, last, flags);
  }

  /** A document that is one element with another name in its closing tag is refused exactly when closing tags are
      validated. */
  lemma WrongClosing(n: Node, g: Gap, closing: Str, flags: Flags)
    requires n.Element? && IsName(n.name) && n.name[0] != '!' && NormalAttributes(n.attrs) && NormalAll(n.children)
    requires GapFits(n, g) && IsName(closing) && closing != n.name
    ensures ParseDocument(Opened(n, g, closing) + [NUL], flags) ==
      if flags.validateClosing then Err("invalid closing tag name") else Ok([Seen(flags, n).value])
  {
    hide Opened, ParseNode, GapFits, NormalAttributes, NormalAll, IsName, Skip, Seen;
    var t := Opened(n, g, closing);
    var s := t + [NUL];
    assert s[0..0 + |t|] == t;
    OpenedElement(s, 0, n, g, closing, flags);
    SkipExact(s, 0, 0, Space);
    assert !AtMark(s);
    if !flags.validateClosing {
      SkipExact(s, |t|, |t|, Space);
      assert ParseTop(s, |t|, flags) == Ok([]);
      SeenElement(flags, n);
      assert Listed(Seen(flags, n)) + [] == [Seen(flags, n).value];
    }
  }

  predicate AtMark(s: Str) { s != [] && s[0] == '\U{EF}' }

  lemma SeenElement(flags: Flags, n: Node)
    requires n.Element?
    ensures Seen(flags, n).Some?
  {
  }

  lemma NoByteOrderMark(ns: seq<Node>, gs: seq<Gap>, last: Str, s: Str)
    requires GapsFit(ns, gs, last, false) && (forall n :: n in ns ==> !n.Data?)
    requires s == [] + SpacedAll(ns, gs, last) + [NUL]
    ensures BomEnd(s) == 0
  {
    if ns == [] {
      if last != [] { assert last[0] in last && s[0] == last[0]; }
    } else {
      assert ns[0] in ns;
      var before := FirstGap(gs).before;
      if before != [] { assert before[0] in before && s[0] == before[0]; }
      else { assert SpacedNode(ns[0], FirstGap(gs))[0] == '<'; }
    }
  }

  // ----- the printer's own spacing

  lemma {:induction false} PlainAttributes(attrs: Attrs)
    ensures SpacedAttributes(attrs, []) == PrintAttributes(attrs) && AttributesFit(attrs, [])
  {
    hide Escape;
    if attrs != [] { PlainAttributes(attrs[1..]); }
  }

  lemma {:induction false} PlainNodes(ns: seq<Node>, afterData: bool)
    ensures SpacedAll(ns, [], []) == PrintAll(ns) && GapsFit(ns, [], [], afterData)
    decreases ns
  {
    hide SpacedNode, Print, GapFits;
    if ns != [] {
      var n, g := ns[0], FirstGap([]);
      if n.Element? { PlainNodes(n.children, false); }
      PlainNode(n, g);
      PlainNodes(ns[1..], n.Data?);
      assert [] + Print(n) == Print(n);
    }
  }

  lemma PlainNode(n: Node, g: Gap)
    requires g == FirstGap([])
    requires n.Element? ==> SpacedAll(n.children, [], []) == PrintAll(n.children) && GapsFit(n.children, [], [], false)
    ensures SpacedNode(n, g) == Print(n) && GapFits(n, g)
  {
    hide SpacedAttributes, PrintAttributes, SpacedAll, PrintAll, AttributesFit, GapsFit;
    if n.Element? || n.Declaration? {
      PlainAttributes(n.attrs);
      assert PrintAttributes(n.attrs) + [] == PrintAttributes(n.attrs);
    }
  }

  /** The round trip: for every setting of the flags, parsing a printed document of normal nodes
      returns the nodes the flags keep, at every level, without their attributes. */
  lemma ParsePrinted(ns: seq<Node>, flags: Flags)
    requires NormalAll(ns) && forall n :: n in ns ==> !n.Data?
    ensures ParseDocument(PrintAll(ns) + [NUL], flags) == Ok(Visible(flags, ns))
  {
    hide *;
    PlainNodes(ns, false);
    NoMark();
    ParseSpaced(ns, [], [], false, flags);
    assert [] + PrintAll(ns) == PrintAll(ns);
  }

  lemma NoMark()
    ensures ByteOrderMark(false) == []
  {
  }

  // ----- which documents come back whole

  /** The flags keep this kind of node, and there are no attributes to lose. */
  predicate KeptWhole(flags: Flags, n: Node)
    decreases n, 1
  {
    match n
    case Element(_, attrs, children) => attrs == [] && Whole(flags, children)
    case Data(_) => !flags.noDataNodes
    case CData(_) => !flags.noDataNodes
    case Comment(_) => flags.comments
    case Doctype(_) => flags.doctypes
    case Pi(_, _) => flags.pis
    case Declaration(attrs) => flags.declarations && attrs == []
  }

  /** At every level no attributes, and only kinds of nodes the flags keep. */
  predicate Whole(flags: Flags, ns: seq<Node>)
    decreases ns, 0
  {
    ns == [] || (KeptWhole(flags, ns[0]) && Whole(flags, ns[1..]))
  }

  lemma {:induction false} NoMoreVisible(flags: Flags, ns: seq<Node>)
    ensures |Visible(flags, ns)| <= |ns|
  {
    if ns != [] { NoMoreVisible(flags, ns[1..]); }
  }

  lemma {:induction false} VisibleWhole(flags: Flags, ns: seq<Node>)
    ensures Visible(flags, ns) == ns <==> Whole(flags, ns)
    decreases ns, 0
  {
    if ns != [] {
      var n, rest := ns[0], Visible(flags, ns[1..]);
      assert ns == [n] + ns[1..];
      NoMoreVisible(flags, ns[1..]);
      VisibleWhole(flags, ns[1..]);
      if n.Element? { VisibleWhole(flags, n.children); }
      if Seen(flags, n) == Some(n) {
        assert Visible(flags, ns) == [n] + rest;
        assert Visible(flags, ns)[1..] == rest;
      }
    }
  }

  /** A printed document comes back whole exactly when it has no attributes at any level and the flags keep every
      kind of node in it. */
  lemma ComesBackWhole(ns: seq<Node>, flags: Flags)
    requires NormalAll(ns) && forall n :: n in ns ==> !n.Data?
    ensures ParseDocument(PrintAll(ns) + [NUL], flags) == Ok(ns) <==> Whole(flags, ns)
  {
    hide *;
    ParsePrinted(ns, flags);
    VisibleWhole(flags, ns);
  }
}
