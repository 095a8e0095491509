/** The document tree, and TiXmlPrinter, which writes it out as a visitor. */
module XmlTree {
  import opened XmlText
  import opened XmlEncode

  datatype Attribute = Attribute(name: string, value: string)

  datatype Node =
    | Element(name: string, attributes: seq<Attribute>, children: seq<Node>)
    | Text(value: string, cdata: bool)
    | Comment(value: string)
    | Declaration(version: string, encoding: string, standalone: string)
    | Unknown(value: string)

  predicate UniqueNames(attrs: seq<Attribute>) {
    forall i, j | 0 <= i < j < |attrs| :: attrs[i].name != attrs[j].name
  }

  predicate IsPlainText(n: Node) {
    n.Text? && !n.cdata
  }

  predicate BlankAttribute(a: Attribute) {
    a.name == "" && a.value == ""
  }

  /** How far First and Next get: a blank attribute behind the first one looks like the sentinel. */
  function Visible(attrs: seq<Attribute>): seq<Attribute> {
    if attrs == [] then [] else VisibleFrom(attrs, 0)
  }

  /** What is still to be visited when attribute i is next. */
  function VisibleFrom(attrs: seq<Attribute>, i: nat): seq<Attribute>
    requires i < |attrs|
  {
    [attrs[i]] + UpToBlank(attrs[i + 1..])
  }

  function UpToBlank(attrs: seq<Attribute>): seq<Attribute> {
    if attrs == [] || BlankAttribute(attrs[0]) then [] else [attrs[0]] + UpToBlank(attrs[1..])
  }

  // ---- What the printer writes ----

  /** Indentation unit and line break; SetStreamPrinting makes both empty. */
  datatype Format = Format(indent: string, lineBreak: string)

  const STREAM := Format("", "")

  function Indent(depth: nat, f: Format): string {
    if depth == 0 then "" else Indent(depth - 1, f) + f.indent
  }

  function PrintAttribute(a: Attribute): string {
    var quote := if '"' in a.value then "'" else "\"";
    Encode(a.name) + ("=" + (quote + (Encode(a.value) + quote)))
  }

  function PrintAttributes(attrs: seq<Attribute>): string {
    if attrs == [] then "" else " " + (PrintAttribute(attrs[0]) + PrintAttributes(attrs[1..]))
  }

  function PrintField(key: string, value: string): string {
    if value == "" then "" else key + ("=\"" + (value + "\" "))
  }

  function PrintDeclaration(version: string, encoding: string, standalone: string): string {
    "<?xml " + (PrintField("version", version) + (PrintField("encoding", encoding)
      + (PrintField("standalone", standalone) + "?>")))
  }

  /** The only child is plain text: it is written without indentation or line breaks. */
  predicate SimpleText(children: seq<Node>) {
    |children| == 1 && IsPlainText(children[0])
  }

  function EndTag(name: string): string {
    "</" + UpToNul(name) + ">"
  }

  /** A node without the indentation before it and the line break after it. */
  function PrintBody(n: Node, depth: nat, f: Format): string
    decreases n, 0
  {
    match n
    case Text(value, cdata) => if cdata then "<![CDATA[" + (UpToNul(value) + "]]>") else Encode(value)
    case Comment(value) => "<!--" + (UpToNul(value) + "-->")
    case Declaration(v, e, s) => PrintDeclaration(v, e, s)
    case Unknown(value) => "<" + (UpToNul(value) + ">")
    case Element(name, attrs, children) =>
      "<" + (UpToNul(name) + (PrintAttributes(Visible(attrs)) + (
        if children == [] then " />"
        else if SimpleText(children) then ">" + (Encode(children[0].value) + EndTag(name))
        else ">" + (f.lineBreak + (PrintNodes(children, depth + 1, f) + (Indent(depth, f) + EndTag(name)))))))
  }

  function PrintNodes(nodes: seq<Node>, depth: nat, f: Format): string
    decreases nodes, 1
  {
    if nodes == [] then ""
    else Indent(depth, f) + (PrintBody(nodes[0], depth, f) + (f.lineBreak + PrintNodes(nodes[1..], depth, f)))
  }

  /** What a printer in its initial state holds after accepting a document. */
  function PrintDocument(nodes: seq<Node>, f: Format): string {
    PrintNodes(nodes, 0, f)
  }

  lemma {:induction false} PrintNodesSnoc(nodes: seq<Node>, depth: nat, f: Format, i: nat)
    requires i < |nodes|
    ensures PrintNodes(nodes[..i + 1], depth, f)
         == PrintNodes(nodes[..i], depth, f) + (Indent(depth, f) + (PrintBody(nodes[i], depth, f) + f.lineBreak))
  {
    var last := Indent(depth, f) + (PrintBody(nodes[i], depth, f) + f.lineBreak);
    if i == 0 {
      assert nodes[..1] == [nodes[0]] && nodes[..1][1..] == [];
      assert f.lineBreak + "" == f.lineBreak;
    } else {
      assert nodes[..i + 1][1..] == nodes[1..][..i] && nodes[..i][1..] == nodes[1..][..i - 1];
      assert nodes[1..][i - 1] == nodes[i];
      PrintNodesSnoc(nodes[1..], depth, f, i - 1);
      var head, body := Indent(depth, f), PrintBody(nodes[0], depth, f);
      var tail := PrintNodes(nodes[1..][..i - 1], depth, f);
      Assoc(f.lineBreak, tail, last);
      Assoc(body, f.lineBreak + tail, last);
      Assoc(head, body + (f.lineBreak + tail), last);
    }
  }

  lemma Cat3(b: string, x: string, y: string, z: string)
    ensures ((b + x) + y) + z == b + (x + (y + z))
  {
  }

  lemma Cat4(b: string, x: string, y: string, z: string, w: string)
    ensures (((b + x) + y) + z) + w == b + (x + (y + (z + w)))
  {
    Assoc(((b + x) + y), z, w);
    Cat3(b, x, y, z + w);
  }

  lemma Cat5(b: string, x: string, y: string, z: string, w: string, v: string)
    ensures ((((b + x) + y) + z) + w) + v == b + (x + (y + (z + (w + v))))
  {
    Assoc((((b + x) + y) + z), w, v);
    Cat4(b, x, y, z, w + v);
  }

  lemma Wrapped(b: string, indent: string, open: string, value: string, close: string, lineBreak: string)
    ensures ((((b + indent) + open) + value) + close) + lineBreak
         == b + (indent + ((open + (value + close)) + lineBreak))
  {
    Cat3(b + indent, open, value, close);
    Cat3(b, indent, open + (value + close), lineBreak);
  }

  lemma CloseTag(b: string, indent: string, name: string, attrs: string, tail: string, lb: string)
    ensures (b + (indent + ("<" + (name + attrs)))) + (tail + lb)
         == b + (indent + (("<" + (name + (attrs + tail))) + lb))
  {
    var open := "<" + (name + attrs);
    Assoc(b, indent + open, tail + lb);
    Assoc(indent, open, tail + lb);
    Assoc(open, tail, lb);
    Assoc("<", name + attrs, tail);
    Assoc(name, attrs, tail);
  }

  lemma SimpleTail(b: string, text: string, end: string, lb: string)
    ensures ((b + ">") + text) + (end + lb) == b + ((">" + (text + end)) + lb)
  {
    Cat3(b, ">", text, end + lb);
    Assoc(text, end, lb);
    Assoc(">", text + end, lb);
  }

  lemma NestedTail(b: string, kids: string, indent: string, end: string, lb: string)
    ensures (((b + (">" + lb)) + kids) + indent) + (end + lb) == b + ((">" + (lb + (kids + (indent + end)))) + lb)
  {
    Cat4(b, ">" + lb, kids, indent, end + lb);
    Cat3("", kids, indent, end);
    Assoc(indent, end, lb);
    Assoc(kids, indent + end, lb);
    Assoc(lb, kids + (indent + end), lb);
    Assoc(">", lb + (kids + (indent + end)), lb);
    Assoc(">", lb, (kids + (indent + end)) + lb);
  }

  /** An element put together from what is written on entering it, by its children and on leaving it. */
  lemma ElementAssembled(e: Node, depth: nat, f: Format, b: string, open: string, inside: string, final: string)
    requires e.Element?
    requires open == b + (Indent(depth, f) + ("<" + (UpToNul(e.name) + PrintAttributes(Visible(e.attributes)))))
    requires e.children == [] ==> final == inside == open + (" />" + f.lineBreak)
    requires e.children != [] && SimpleText(e.children) ==>
               inside == (open + ">") + Encode(e.children[0].value) && final == inside + (EndTag(e.name) + f.lineBreak)
    requires e.children != [] && !SimpleText(e.children) ==>
               && inside == (open + (">" + f.lineBreak)) + PrintNodes(e.children, depth + 1, f)
               && final == (inside + Indent(depth, f)) + (EndTag(e.name) + f.lineBreak)
    ensures final == b + (Indent(depth, f) + (PrintBody(e, depth, f) + f.lineBreak))
  {
    var end := EndTag(e.name);
    var tail := if e.children == [] then " />"
                else if SimpleText(e.children) then ">" + (Encode(e.children[0].value) + end)
                else ">" + (f.lineBreak + (PrintNodes(e.children, depth + 1, f) + (Indent(depth, f) + end)));
    if e.children == [] {
    } else if SimpleText(e.children) {
      SimpleTail(open, Encode(e.children[0].value), end, f.lineBreak);
    } else {
      NestedTail(open, PrintNodes(e.children, depth + 1, f), Indent(depth, f), end, f.lineBreak);
    }
    CloseTag(b, Indent(depth, f), UpToNul(e.name), PrintAttributes(Visible(e.attributes)), tail, f.lineBreak);
  }

  /** One turn of the attribute loop of VisitEnter. */
  lemma PrintVisible(attrs: seq<Attribute>, i: nat, before: string)
    requires i < |attrs|
    ensures before + PrintAttributes(VisibleFrom(attrs, i))
         == ((before + " ") + PrintAttribute(attrs[i]))
            + (if i + 1 < |attrs| && !BlankAttribute(attrs[i + 1])
               then PrintAttributes(VisibleFrom(attrs, i + 1)) else "")
  {
    var rest := UpToBlank(attrs[i + 1..]);
    assert VisibleFrom(attrs, i)[1..] == rest;
    assert i + 1 < |attrs| ==> attrs[i + 1..][1..] == attrs[i + 2..];
    Cat3(before, " ", PrintAttribute(attrs[i]), PrintAttributes(rest));
  }

  // ---- TiXmlPrinter ----

  class Printer {
    var depth: int
    var simpleTextPrint: bool
    var buffer: string
    var indent: string
    var lineBreak: string

    ghost function Fmt(): Format
      reads this
    {
      Format(indent, lineBreak)
    }

    constructor ()
      ensures depth == 0 && !simpleTextPrint && buffer == "" && Fmt() == Format("    ", "\n")
    {
      depth, simpleTextPrint, buffer := 0, false, "";
      indent, lineBreak := "    ", "\n";
    }

    method SetStreamPrinting()
      modifies this
      ensures Fmt() == STREAM
      ensures depth == old(depth) && simpleTextPrint == old(simpleTextPrint) && buffer == old(buffer)
    {
      indent, lineBreak := "", "";
    }

    method DoIndent()
      requires depth >= 0
      modifies this`buffer
      ensures buffer == old(buffer) + Indent(depth, Fmt())
    {
      var i := 0;
      while i < depth
        invariant 0 <= i <= depth
        invariant buffer == old(buffer) + Indent(i, Fmt())
      {
        buffer := buffer + indent;
        i := i + 1;
      }
    }

    method DoLineBreak()
      modifies this`buffer
      ensures buffer == old(buffer) + lineBreak
    {
      buffer := buffer + lineBreak;
    }

    method PrintAttributeTo(a: Attribute)
      modifies this`buffer
      ensures buffer == old(buffer) + PrintAttribute(a)
    {
      var n := EncodeString(a.name);
      var v := EncodeString(a.value);
      var quote := if '"' !in a.value then "\"" else "'";
      ghost var before := buffer;
      buffer := buffer + n;
      buffer := buffer + "=";
      buffer := buffer + quote;
      buffer := buffer + v;
      buffer := buffer + quote;
      Cat5(before, n, "=", quote, v, quote);
    }

    /** The first half of VisitEnter: everything up to the end of the attributes. */
    method OpenTag(e: Node)
      requires e.Element? && depth >= 0
      modifies this`buffer
      ensures buffer == old(buffer)
                        + (Indent(depth, Fmt()) + ("<" + (UpToNul(e.name) + PrintAttributes(Visible(e.attributes)))))
    {
      DoIndent();
      buffer := buffer + "<";
      buffer := buffer + UpToNul(e.name);
      ghost var open, all := buffer, PrintAttributes(Visible(e.attributes));
      var i, more := 0, e.attributes != [];
      while more
        invariant 0 <= i <= |e.attributes| && (more ==> i < |e.attributes|)
        invariant open + all == buffer + (if more then PrintAttributes(VisibleFrom(e.attributes, i)) else "")
        decreases |e.attributes| - i, more
      {
        ghost var before := buffer;
        buffer := buffer + " ";
        PrintAttributeTo(e.attributes[i]);
        PrintVisible(e.attributes, i, before);
        i := i + 1;
        more := i < |e.attributes| && !BlankAttribute(e.attributes[i]);
      }
      assert buffer + "" == buffer;
      Cat4(old(buffer), Indent(depth, Fmt()), "<", UpToNul(e.name), all);
    }

    method VisitEnter(e: Node)
      requires e.Element? && depth >= 0
      modifies this
      ensures depth == old(depth) + 1 && Fmt() == old(Fmt())
      ensures simpleTextPrint == (old(simpleTextPrint) || SimpleText(e.children))
      ensures buffer == old(buffer)
                      + (Indent(old(depth), old(Fmt()))
                         + ("<" + (UpToNul(e.name) + PrintAttributes(Visible(e.attributes)))))
                      + (if e.children == [] then " />" + lineBreak
                         else if SimpleText(e.children) then ">" else ">" + lineBreak)
    {
      OpenTag(e);
      ghost var open := buffer;
      if e.children == [] {
        buffer := buffer + " />";
        DoLineBreak();
        Assoc(open, " />", lineBreak);
      } else {
        buffer := buffer + ">";
        if SimpleText(e.children) {
          simpleTextPrint := true;
        } else {
          DoLineBreak();
          Assoc(open, ">", lineBreak);
        }
      }
      depth := depth + 1;
    }

    method VisitExit(e: Node)
      requires e.Element? && depth > 0
      modifies this
      ensures depth == old(depth) - 1 && Fmt() == old(Fmt())
      ensures e.children == [] ==> buffer == old(buffer) && simpleTextPrint == old(simpleTextPrint)
      ensures e.children != [] ==> !simpleTextPrint
      ensures e.children != [] ==>
                buffer == (if old(simpleTextPrint) then old(buffer) else old(buffer) + Indent(depth, Fmt()))
                        + (EndTag(e.name) + lineBreak)
    {
      depth := depth - 1;
      if e.children != [] {
        if simpleTextPrint {
          simpleTextPrint := false;
        } else {
          DoIndent();
        }
        ghost var before := buffer;
        buffer := buffer + "</";
        buffer := buffer + UpToNul(e.name);
        buffer := buffer + ">";
        DoLineBreak();
        assert buffer == before + (EndTag(e.name) + lineBreak);
      }
    }

    method VisitText(t: Node)
      requires t.Text? && depth >= 0
      modifies this`buffer
      ensures !t.cdata && simpleTextPrint ==> buffer == old(buffer) + Encode(t.value)
      ensures t.cdata || !simpleTextPrint ==>
                buffer == old(buffer) + (Indent(depth, Fmt()) + (PrintBody(t, depth, Fmt()) + lineBreak))
    {
      if t.cdata {
        DoIndent();
        buffer := buffer + "<![CDATA[";
        buffer := buffer + UpToNul(t.value);
        buffer := buffer + "]]>";
        DoLineBreak();
        Wrapped(old(buffer), Indent(depth, Fmt()), "<![CDATA[", UpToNul(t.value), "]]>", lineBreak);
      } else if simpleTextPrint {
        var str := EncodeString(t.value);
        buffer := buffer + str;
      } else {
        DoIndent();
        var str := EncodeString(t.value);
        buffer := buffer + str;
        DoLineBreak();
        Cat3(old(buffer), Indent(depth, Fmt()), str, lineBreak);
      }
    }

    method VisitLeaf(n: Node)
      requires (n.Comment? || n.Unknown?) && depth >= 0
      modifies this`buffer
      ensures buffer == old(buffer) + (Indent(depth, Fmt()) + (PrintBody(n, depth, Fmt()) + lineBreak))
    {
      DoIndent();
      var open, close := if n.Comment? then "<!--" else "<", if n.Comment? then "-->" else ">";
      buffer := buffer + open;
      buffer := buffer + UpToNul(n.value);
      buffer := buffer + close;
      DoLineBreak();
      Wrapped(old(buffer), Indent(depth, Fmt()), open, UpToNul(n.value), close, lineBreak);
    }

    method PrintFieldTo(key: string, value: string)
      modifies this`buffer
      ensures buffer == old(buffer) + PrintField(key, value)
    {
      if value != "" {
        ghost var before := buffer;
        buffer := buffer + key;
        buffer := buffer + "=\"";
        buffer := buffer + value;
        buffer := buffer + "\" ";
        Cat4(before, key, "=\"", value, "\" ");
      }
    }

    method VisitDeclaration(n: Node)
      requires n.Declaration? && depth >= 0
      modifies this`buffer
      ensures buffer == old(buffer) + (Indent(depth, Fmt()) + (PrintBody(n, depth, Fmt()) + lineBreak))
    {
      DoIndent();
      ghost var before := buffer;
      buffer := buffer + "<?xml ";
      PrintFieldTo("version", n.version);
      PrintFieldTo("encoding", n.encoding);
      PrintFieldTo("standalone", n.standalone);
      buffer := buffer + "?>";
      Cat5(before, "<?xml ", PrintField("version", n.version), PrintField("encoding", n.encoding),
           PrintField("standalone", n.standalone), "?>");
      DoLineBreak();
      Cat3(old(buffer), Indent(depth, Fmt()), PrintBody(n, depth, Fmt()), lineBreak);
    }

    /** TiXmlElement::Accept and the leaf overrides of it. */
    method Accept(n: Node)
      requires depth >= 0 && (simpleTextPrint ==> IsPlainText(n))
      modifies this
      ensures depth == old(depth) && Fmt() == old(Fmt()) && simpleTextPrint == old(simpleTextPrint)
      ensures buffer == old(buffer) + (if old(simpleTextPrint) then PrintBody(n, depth, Fmt())
                                       else Indent(depth, Fmt()) + (PrintBody(n, depth, Fmt()) + lineBreak))
      decreases n, 1
    {
      match n {
        case Text(_, _) => VisitText(n);
        case Declaration(_, _, _) => VisitDeclaration(n);
        case Element(name, attrs, children) =>
          VisitEnter(n);
          ghost var openTag := "<" + (UpToNul(name) + PrintAttributes(Visible(attrs)));
          ghost var openPart := old(buffer) + (Indent(old(depth), Fmt()) + openTag);
          AcceptChildren(n);
          assert children[..|children|] == children;
          ghost var inside := buffer;
          VisitExit(n);
          ElementAssembled(n, depth, Fmt(), old(buffer), openPart, inside, buffer);
        case _ => VisitLeaf(n);
      }
    }

    /** The loop of TiXmlElement::Accept. */
    method AcceptChildren(e: Node)
      requires e.Element? && depth >= 0 && simpleTextPrint == SimpleText(e.children)
      modifies this
      ensures depth == old(depth) && Fmt() == old(Fmt()) && simpleTextPrint == old(simpleTextPrint)
      ensures buffer == old(buffer) + Inner(e.children, |e.children|, depth, Fmt())
      decreases e, 0
    {
      var i := 0;
      assert buffer + "" == buffer;
      while i < |e.children|
        invariant 0 <= i <= |e.children|
        invariant depth == old(depth) && Fmt() == old(Fmt()) && simpleTextPrint == SimpleText(e.children)
        invariant buffer == old(buffer) + Inner(e.children, i, depth, Fmt())
      {
        ghost var before := buffer;
        Accept(e.children[i]);
        ChildPrinted(e.children, i, depth, Fmt(), old(buffer), before, buffer);
        i := i + 1;
      }
    }
  }

  /** What is written between the tags of an element once i children have been visited. */
  ghost function Inner(children: seq<Node>, i: nat, depth: nat, f: Format): string
    requires i <= |children|
  {
    if i == 0 then ""
    else if SimpleText(children) then Encode(children[0].value)
    else PrintNodes(children[..i], depth, f)
  }

  lemma ChildPrinted(children: seq<Node>, i: nat, depth: nat, f: Format, entered: string, before: string, after: string)
    requires i < |children| && before == entered + Inner(children, i, depth, f)
    requires after == before + (if SimpleText(children) then PrintBody(children[i], depth, f)
                                else Indent(depth, f) + (PrintBody(children[i], depth, f) + f.lineBreak))
    ensures after == entered + Inner(children, i + 1, depth, f)
  {
    if SimpleText(children) {
      assert entered + "" == entered;
    } else {
      PrintNodesSnoc(children, depth, f, i);
      assert Inner(children, i, depth, f) == PrintNodes(children[..i], depth, f);
      Assoc(entered, PrintNodes(children[..i], depth, f),
            Indent(depth, f) + (PrintBody(children[i], depth, f) + f.lineBreak));
    }
  }

  /** TiXmlDocument::Accept with a fresh printer in stream-printing mode. */
  method StreamPrint(nodes: seq<Node>) returns (text: string)
    ensures text == PrintDocument(nodes, STREAM)
  {
    var printer := new Printer();
    printer.SetStreamPrinting();
    var i := 0;
    while i < |nodes|
      invariant 0 <= i <= |nodes|
      invariant printer.depth == 0 && !printer.simpleTextPrint && printer.Fmt() == STREAM
      invariant printer.buffer == PrintNodes(nodes[..i], 0, STREAM)
    {
      PrintNodesSnoc(nodes, 0, STREAM, i);
      printer.Accept(nodes[i]);
      i := i + 1;
    }
    assert nodes[..|nodes|] == nodes;
    text := printer.buffer;
  }
}
