/** The recursive-descent parser as a function of the text, for every choice of the node flags.
    Element values are not set (parse_no_element_values), references are translated, and
    whitespace is neither trimmed nor condensed. */
module XmlParser {
  import opened Wrappers
  import opened XmlText

  type Attrs = seq<(Str, Str)>

  datatype Node =
    | Element(name: Str, attrs: Attrs, children: seq<Node>)
    | Data(value: Str)
    | CData(value: Str)
    | Comment(value: Str)
    | Doctype(value: Str)
    | Pi(name: Str, value: Str)
    | Declaration(attrs: Attrs)

  datatype Flags = Flags(
    comments: bool, pis: bool, doctypes: bool, declarations: bool,
    validateClosing: bool, noDataNodes: bool, noTerminators: bool)

  datatype Class = Space | NodeName | AttributeName

  predicate InClass(k: Class, c: Ch) {
    match k
    case Space => IsSpace(c)
    case NodeName => IsNodeName(c)
    case AttributeName => IsAttributeName(c)
  }

  /** skip<Pred>: the first position from p on whose character is not in the class. */
  function Skip(s: Str, p: nat, k: Class): (q: nat)
    requires Terminated(s) && p < |s|
    ensures p <= q < |s| && !InClass(k, s[q])
    ensures forall i :: p <= i < q ==> InClass(k, s[i])
    decreases |s| - p
  {
    if InClass(k, s[p]) then Skip(s, p + 1, k) else p
  }

  /** The first occurrence of the closing marker, unless the text ends before it. */
  function Scan(s: Str, p: nat, marker: Str): (r: Result<nat>)
    requires Terminated(s) && p < |s| && marker != [] && NulFree(marker)
    ensures r.Ok? ==> p <= r.value && HasAt(s, r.value, marker) && r.value + |marker| < |s|
    decreases |s| - p
  {
    if HasAt(s, p, marker) then
      LastNotNul(s, p, marker);
      Ok(p)
    else if s[p] == NUL then Err("unexpected end of data")
    else Scan(s, p + 1, marker)
  }

  datatype Attribute = Attribute(name: Str, value: Str, next: nat)

  /** The end of an attribute's name and the position of the quote that opens its value. */
  function AttributeHead(s: Str, p: nat): (r: Result<(nat, nat)>)
    requires Terminated(s) && p < |s| && IsAttributeName(s[p])
    ensures r.Ok? ==> p < r.value.0 < r.value.1 < |s| - 1
    ensures r.Ok? ==> s[r.value.1] == '\'' || s[r.value.1] == '"'
  {
    var nameEnd := Skip(s, p + 1, AttributeName);
    var eq := Skip(s, nameEnd, Space);
    if s[eq] != '=' then Err("expected =")
    else
      var q := Skip(s, eq + 1, Space);
      if s[q] != '\'' && s[q] != '"' then Err("expected ' or \"") else Ok((nameEnd, q))
  }

  /** One round of parse_node_attributes: a name, an equals sign, and the expanded quoted value. */
  function ParseAttribute(s: Str, p: nat): (r: Result<Attribute>)
    requires Terminated(s) && p < |s| && IsAttributeName(s[p])
    ensures r.Ok? ==> p < r.value.next < |s|
  {
    var (nameEnd, q) :- AttributeHead(s, p);
    var (value, end) :- Expand(s, q + 1, s[q]);
    if s[end] != s[q] then Err("expected ' or \"")
    else Ok(Attribute(s[p..nameEnd], value, Skip(s, end + 1, Space)))
  }

  /** parse_node_attributes: every attribute up to the first character that cannot start a name. */
  function ParseAttributes(s: Str, p: nat): (r: Result<(Attrs, nat)>)
    requires Terminated(s) && p < |s|
    ensures r.Ok? ==> p <= r.value.1 < |s|
    decreases |s| - p
  {
    if !IsAttributeName(s[p]) then Ok(([], p))
    else
      var a :- ParseAttribute(s, p);
      var (rest, next) :- ParseAttributes(s, a.next);
      Ok(([(a.name, a.value)] + rest, next))
  }

  /** The `>` that closes a DOCTYPE, brackets matched by depth. */
  function DoctypeEnd(s: Str, p: nat, depth: nat): (r: Result<nat>)
    requires Terminated(s) && p < |s|
    ensures r.Ok? ==> p <= r.value < |s| - 1
    decreases |s| - p
  {
    if s[p] == NUL then Err("unexpected end of data")
    else if depth == 0 && s[p] == '>' then Ok(p)
    else if s[p] == '[' then DoctypeEnd(s, p + 1, depth + 1)
    else if s[p] == ']' && depth > 0 then DoctypeEnd(s, p + 1, depth - 1)
    else DoctypeEnd(s, p + 1, depth)
  }

  type Parsed = Result<(Option<Node>, nat)>

  function Keep(flag: bool, n: Node): Option<Node> { if flag then Some(n) else None }

  function ParseComment(s: Str, p: nat, flags: Flags): (r: Parsed)
    requires Terminated(s) && p < |s|
    ensures r.Ok? ==> p < r.value.1 < |s|
  {
    var end :- Scan(s, p, "-->");
    Ok((Keep(flags.comments, Comment(s[p..end])), end + 3))
  }

  function ParseCData(s: Str, p: nat, flags: Flags): (r: Parsed)
    requires Terminated(s) && p < |s|
    ensures r.Ok? ==> p < r.value.1 < |s|
  {
    var end :- Scan(s, p, "]]>");
    Ok((Keep(!flags.noDataNodes, CData(s[p..end])), end + 3))
  }

  function ParseDoctype(s: Str, p: nat, flags: Flags): (r: Parsed)
    requires Terminated(s) && p < |s|
    ensures r.Ok? ==> p < r.value.1 < |s|
  {
    var end :- DoctypeEnd(s, p, 0);
    Ok((Keep(flags.doctypes, Doctype(s[p..end])), end + 1))
  }

  /** The value of a processing instruction as it reads once its terminators are placed. The one
      behind the target lands on the first character of the value when no white space separates
      the two, as in `<?a/b?>`. */
  function PiValue(value: Str, separated: bool, flags: Flags): Str {
    if separated || flags.noTerminators || value == [] then value else [NUL] + value[1..]
  }

  function ParsePi(s: Str, p: nat, flags: Flags): (r: Parsed)
    requires Terminated(s) && p < |s|
    ensures r.Ok? ==> p < r.value.1 < |s|
  {
    if flags.pis then
      var nameEnd := Skip(s, p, NodeName);
      if nameEnd == p then Err("expected PI target")
      else
        var start := Skip(s, nameEnd, Space);
        var end :- Scan(s, start, "?>");
        Ok((Some(Pi(s[p..nameEnd], PiValue(s[start..end], nameEnd < start, flags))), end + 2))
    else
      var end :- Scan(s, p, "?>");
      Ok((None, end + 2))
  }

  /** The attributes of a declaration are parsed and then lost: append_attribute links none. */
  function ParseDeclaration(s: Str, p: nat, flags: Flags): (r: Parsed)
    requires Terminated(s) && p < |s|
    ensures r.Ok? ==> p < r.value.1 < |s|
  {
    if flags.declarations then
      var (attrs, end) :- ParseAttributes(s, Skip(s, p, Space));
      if !HasAt(s, end, "?>") then Err("expected ?>")
      else
        LastNotNul(s, end, "?>");
        Ok((Some(Declaration([])), end + 2))
    else
      var end :- Scan(s, p, "?>");
      Ok((None, end + 2))
  }

  predicate AtDeclaration(s: Str, p: nat) {
    && At(s, p) == '?'
    && (At(s, p + 1) == 'x' || At(s, p + 1) == 'X')
    && (At(s, p + 2) == 'm' || At(s, p + 2) == 'M')
    && (At(s, p + 3) == 'l' || At(s, p + 3) == 'L')
    && IsSpace(At(s, p + 4))
  }

  predicate AtDoctype(s: Str, p: nat) { HasAt(s, p, "!DOCTYPE") && IsSpace(At(s, p + 8)) }

  /** Everything that starts with `<!` or `<?`; p is behind the `<`. */
  function ParseSpecial(s: Str, p: nat, flags: Flags): (r: Parsed)
    requires Terminated(s) && p < |s| && (s[p] == '?' || s[p] == '!')
    ensures r.Ok? ==> p < r.value.1 < |s|
  {
    if s[p] == '?' then
      if AtDeclaration(s, p) then ParseDeclaration(s, p + 5, flags) else ParsePi(s, p + 1, flags)
    else if HasAt(s, p, "!--") then
      LastNotNul(s, p, "!--");
      ParseComment(s, p + 3, flags)
    else if HasAt(s, p, "![CDATA[") then
      LastNotNul(s, p, "![CDATA[");
      ParseCData(s, p + 8, flags)
    else if AtDoctype(s, p) then ParseDoctype(s, p + 9, flags)
    else
      var end :- Scan(s, p + 1, ">");
      Ok((None, end + 1))
  }

  /** parse_node; p is behind the `<`. */
  function ParseNode(s: Str, p: nat, flags: Flags): (r: Parsed)
    requires Terminated(s) && p < |s|
    ensures r.Ok? ==> p < r.value.1 < |s|
    decreases |s| - p, 2
  {
    if s[p] == '?' || s[p] == '!' then ParseSpecial(s, p, flags)
    else
      var (element, next) :- ParseElement(s, p, flags);
      Ok((Some(element), next))
  }

  /** The name of an element and the position behind its attributes. The attributes are parsed and
      then lost: append_attribute links none of them. */
  function ParseStartTag(s: Str, p: nat): (r: Result<(Str, nat)>)
    requires Terminated(s) && p < |s|
    ensures r.Ok? ==> p < r.value.1 < |s|
  {
    var nameEnd := Skip(s, p, NodeName);
    if nameEnd == p then Err("expected element name")
    else
      var (attrs, q) :- ParseAttributes(s, Skip(s, nameEnd, Space));
      Ok((s[p..nameEnd], q))
  }

  /** parse_element. */
  function ParseElement(s: Str, p: nat, flags: Flags): (r: Result<(Node, nat)>)
    requires Terminated(s) && p < |s|
    ensures r.Ok? ==> p < r.value.1 < |s|
    decreases |s| - p, 1
  {
    var (name, q) :- ParseStartTag(s, p);
    if s[q] == '>' then
      var (children, next) :- ParseContents(s, q + 1, name, flags);
      Ok((Element(name, [], children), next))
    else if s[q] == '/' then
      if s[q + 1] != '>' then Err("expected >") else Ok((Element(name, [], []), q + 2))
    else Err("expected >")
  }

  /** The rest of a closing tag behind `</`. */
  function ParseClosing(s: Str, p: nat, name: Str, flags: Flags): (r: Result<nat>)
    requires Terminated(s) && p < |s|
    ensures r.Ok? ==> p < r.value < |s|
  {
    var nameEnd := Skip(s, p, NodeName);
    if flags.validateClosing && s[p..nameEnd] != name then Err("invalid closing tag name")
    else
      var q := Skip(s, nameEnd, Space);
      if s[q] != '>' then Err("expected >") else Ok(q + 1)
  }

  /** parse_node_contents: everything up to and including the closing tag. */
  function ParseContents(s: Str, p: nat, name: Str, flags: Flags): (r: Result<(seq<Node>, nat)>)
    requires Terminated(s) && p < |s|
    ensures r.Ok? ==> p < r.value.1 < |s|
    decreases |s| - p, 0
  {
    var q := Skip(s, p, Space);
    if s[q] == NUL then Err("unexpected end of data")
    else if s[q] == '<' then
      if s[q + 1] == '/' then
        var next :- ParseClosing(s, q + 2, name, flags);
        Ok(([], next))
      else
        var (child, next) :- ParseNode(s, q + 1, flags);
        var (rest, end) :- ParseContents(s, next, name, flags);
        Ok((Listed(child) + rest, end))
    else
      assert s[p] != '<' && s[p] != NUL;
      var (value, next) :- Expand(s, p, '<');
      var (rest, end) :- ParseContents(s, next, name, flags);
      Ok((Listed(Keep(!flags.noDataNodes, Data(value))) + rest, end))
  }

  function Listed(n: Option<Node>): seq<Node> { if n.Some? then [n.value] else [] }

  /** The loop of parse: nodes at document level. */
  function ParseTop(s: Str, p: nat, flags: Flags): (r: Result<seq<Node>>)
    requires Terminated(s) && p < |s|
    decreases |s| - p
  {
    var q := Skip(s, p, Space);
    if s[q] == NUL then Ok([])
    else if s[q] != '<' then Err("expected <")
    else
      var (child, next) :- ParseNode(s, q + 1, flags);
      var rest :- ParseTop(s, next, flags);
      Ok(Listed(child) + rest)
  }

  /** parse: an optional byte order mark, then the nodes. */
  function ParseDocument(s: Str, flags: Flags): Result<seq<Node>>
    requires Terminated(s)
  {
    ParseTop(s, BomEnd(s), flags)
  }

  function BomEnd(s: Str): (p: nat)
    requires Terminated(s)
    ensures p < |s|
  {
    if At(s, 0) == '\U{EF}' && At(s, 1) == '\U{BB}' && At(s, 2) == '\U{BF}' then 3 else 0
  }
}
