/** Printing and destructive parsing, end to end. */
module XmlReparse {
  import opened XmlText
  import opened XmlParser
  import opened XmlPrinter
  import opened XmlRoundTrip
  import opened XmlInPlace

  /** Prints normal nodes into a fresh NUL-terminated buffer and parses that buffer in place: the
      slices of the new tree read as exactly the nodes the flags keep. */
  method Reparse(ns: seq<Node>, flags: Flags) returns (buf: array<Ch>, raws: seq<RawNode>)
    requires NormalAll(ns) && forall n :: n in ns ==> !n.Data?
    ensures fresh(buf) && StoresAll(buf[..], raws, Visible(flags, ns), 0, buf.Length, flags)
  {
    hide PrintAll, ParseDocument, Visible, StoresAll, NormalAll;
    var text := WriteChildren([], ns);
    assert text == PrintAll(ns);
    text := text + [NUL];
    buf := new Ch[|text|](i requires 0 <= i < |text| => text[i]);
    assert buf[..] == text;
    ParsePrinted(ns, flags);
    var r := Parse(buf, flags);
    raws := r.value;
  }

  /** The same for text with white space between markup and in tags, and with a byte order mark or none. */
  method ParseSpacedInPlace(ns: seq<Node>, gs: seq<Gap>, last: Str, bom: bool, flags: Flags)
    returns (buf: array<Ch>, raws: seq<RawNode>)
    requires NormalAll(ns) && GapsFit(ns, gs, last, false) && forall n :: n in ns ==> !n.Data?
    ensures fresh(buf) && StoresAll(buf[..], raws, Visible(flags, ns), 0, buf.Length, flags)
  {
    hide SpacedAll, ParseDocument, Visible, StoresAll, NormalAll, GapsFit, ByteOrderMark;
    var text := ByteOrderMark(bom) + SpacedAll(ns, gs, last) + [NUL];
    buf := new Ch[|text|](i requires 0 <= i < |text| => text[i]);
    assert buf[..] == text;
    ParseSpaced(ns, gs, last, bom, flags);
    var r := Parse(buf, flags);
    raws := r.value;
  }
}
