/** The printer with print_no_indenting. The functions say which text every node prints as; the
    methods thread the output the way the recursive printers thread their output iterator. */
module XmlPrinter {
  import opened Wrappers
  import opened XmlText
  import opened XmlParser

  function PrintAttributes(attrs: Attrs): Str {
    if attrs == [] then []
    else PrintAttribute(attrs[0].0, attrs[0].1) + PrintAttributes(attrs[1..])
  }

  /** A value that holds a double quote is put in single quotes, any other in double quotes. */
  function PrintAttribute(name: Str, value: Str): Str {
    var (quote, noexpand) := QuoteFor(value);
    " " + name + "=" + [quote] + Escape(value, noexpand) + [quote]
  }

  function Print(n: Node): Str {
    match n
    case Element(name, attrs, children) =>
      if children == [] then "<" + name + PrintAttributes(attrs) + "/>"
      else "<" + name + PrintAttributes(attrs) + ">" + PrintAll(children) + "</" + name + ">"
    case Data(value) => Escape(value, NUL)
    case CData(value) => "<![CDATA[" + value + "]]>"
    case Comment(value) => "<!--" + value + "-->"
    case Doctype(value) => "<!DOCTYPE " + value + ">"
    case Pi(name, value) => "<?" + name + " " + value + "?>"
    case Declaration(attrs) => "<?xml" + PrintAttributes(attrs) + "?>"
  }

  function PrintAll(ns: seq<Node>): Str {
    if ns == [] then [] else Print(ns[0]) + PrintAll(ns[1..])
  }

  method CopyChars(out: Str, t: Str) returns (res: Str)
    ensures res == out + t
  {
    res := out;
    for i := 0 to |t|
      invariant res == out + t[..i]
    {
      res := res + [t[i]];
    }
    assert t[..|t|] == t;
  }

  lemma EscapeFrom(t: Str, i: nat, noexpand: Ch)
    requires i < |t|
    ensures Escape(t[i..], noexpand) == EscapeChar(t[i], noexpand) + Escape(t[i + 1..], noexpand)
  {
    assert t[i..][1..] == t[i + 1..];
  }

  method ExpandChar(out: Str, c: Ch, noexpand: Ch) returns (res: Str)
    ensures res == out + EscapeChar(c, noexpand)
  {
    if c == noexpand {
      res := out + [c];
    } else {
      match c {
        case '<' => res := out + "&lt;";
        case '>' => res := out + "&gt;";
        case '\'' => res := out + "&apos;";
        case '"' => res := out + "&quot;";
        case '&' => res := out + "&amp;";
        case _ => res := out + [c];
      }
    }
  }

  method CopyAndExpandChars(out: Str, t: Str, noexpand: Ch) returns (res: Str)
    ensures res == out + Escape(t, noexpand)
  {
    hide EscapeChar;
    res := out;
    assert t[0..] == t;
    for i := 0 to |t|
      invariant res + Escape(t[i..], noexpand) == out + Escape(t, noexpand)
    {
      EscapeFrom(t, i, noexpand);
      Assoc(res, EscapeChar(t[i], noexpand), Escape(t[i + 1..], noexpand));
      res := ExpandChar(res, t[i], noexpand);
    }
    assert res + [] == res;
  }

  method WriteAttribute(out: Str, name: Str, value: Str) returns (res: Str)
    ensures res == out + PrintAttribute(name, value)
  {
    hide Escape;
    res := CopyChars(out + " ", name);
    ghost var before := res;
    if '"' in value {
      res := CopyAndExpandChars(res + "='", value, '"');
      assert res == before + "='" + Escape(value, '"');
      res := res + "'";
    } else {
      res := CopyAndExpandChars(res + "=\"", value, '\'');
      assert res == before + "=\"" + Escape(value, '\'');
      res := res + "\"";
    }
  }

  method WriteAttributes(out: Str, attrs: Attrs) returns (res: Str)
    ensures res == out + PrintAttributes(attrs)
  {
    hide PrintAttribute;
    res := out;
    assert attrs[0..] == attrs;
    for i := 0 to |attrs|
      invariant res + PrintAttributes(attrs[i..]) == out + PrintAttributes(attrs)
    {
      assert attrs[i..][1..] == attrs[i + 1..];
      Assoc(res, PrintAttribute(attrs[i].0, attrs[i].1), PrintAttributes(attrs[i + 1..]));
      res := WriteAttribute(res, attrs[i].0, attrs[i].1);
    }
    assert res + [] == res;
  }

  lemma SoleChild(ns: seq<Node>)
    requires |ns| == 1
    ensures PrintAll(ns) == Print(ns[0])
  {
    hide Print;
    assert ns[1..] == [];
    assert PrintAll(ns) == Print(ns[0]) + [];
  }

  /** Between the tags: a sole data child prints as its value, otherwise every child prints. */
  method WriteContents(out: Str, ns: seq<Node>) returns (res: Str)
    requires ns != []
    ensures res == out + PrintAll(ns)
    decreases ns, 1
  {
    hide PrintAll, Escape;
    if |ns| == 1 && ns[0].Data? {
      SoleChild(ns);
      res := CopyAndExpandChars(out, ns[0].value, NUL);
    } else {
      res := WriteChildren(out, ns);
    }
  }

  method WriteElement(out: Str, n: Node) returns (res: Str)
    requires n.Element?
    ensures res == out + Print(n)
    decreases n, 1
  {
    hide PrintAll, PrintAttributes;
    res := CopyChars(out + "<", n.name);
    res := WriteAttributes(res, n.attrs);
    ghost var start := "<" + n.name + PrintAttributes(n.attrs);
    assert res == out + start;
    if n.children == [] {
      res := res + "/>";
      Assoc(out, start, "/>");
    } else {
      res := WriteContents(res + ">", n.children);
      Assoc(out, start, ">");
      Assoc(out, start + ">", PrintAll(n.children));
      ghost var body := start + ">" + PrintAll(n.children);
      res := CopyChars(res + "</", n.name);
      Assoc(out, body, "</");
      Assoc(out, body + "</", n.name);
      Assoc(out, body + "</" + n.name, ">");
      res := res + ">";
    }
  }

  method WriteChildren(out: Str, ns: seq<Node>) returns (res: Str)
    ensures res == out + PrintAll(ns)
    decreases ns, 0
  {
    hide Print;
    res := out;
    assert ns[0..] == ns;
    for i := 0 to |ns|
      invariant res + PrintAll(ns[i..]) == out + PrintAll(ns)
    {
      assert ns[i..][1..] == ns[i + 1..];
      Assoc(res, Print(ns[i]), PrintAll(ns[i + 1..]));
      res := WriteNode(res, ns[i]);
    }
    assert res + [] == res;
  }

  method WriteNode(out: Str, n: Node) returns (res: Str)
    ensures res == out + Print(n)
    decreases n, 2
  {
    hide PrintAll, PrintAttributes, Escape;
    match n {
      case Element(_, _, _) => res := WriteElement(out, n);
      case Data(value) => res := CopyAndExpandChars(out, value, NUL);
      case CData(value) =>
        res := CopyChars(out + "<![CDATA[", value);
        res := res + "]]>";
      case Comment(value) =>
        res := CopyChars(out + "<!--", value);
        res := res + "-->";
      case Doctype(value) =>
        res := CopyChars(out + "<!DOCTYPE ", value);
        res := res + ">";
      case Pi(name, value) =>
        res := CopyChars(out + "<?", name);
        res := CopyChars(res + " ", value);
        res := res + "?>";
      case Declaration(attrs) =>
        res := WriteAttributes(out + "<?xml", attrs);
        res := res + "?>";
    }
  }
}
