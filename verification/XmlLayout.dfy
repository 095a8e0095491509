/** What the layout of a printed document is: one line for every tag and every leaf. */
module XmlLayout {
  import opened XmlText
  import opened XmlEncode
  import opened XmlTree

  /** What stands on one line, and how far it is indented. */
  datatype Line = Line(depth: nat, text: string)

  function StartTag(n: Node): string
    requires n.Element?
  {
    "<" + (UpToNul(n.name) + PrintAttributes(Visible(n.attributes)))
  }

  /** An element without children, or with a single text in it, is one line like a leaf. */
  function LinesOf(n: Node, depth: nat): seq<Line>
    decreases n, 0
  {
    if !n.Element? then [Line(depth, PrintBody(n, 0, STREAM))]
    else if n.children == [] then [Line(depth, StartTag(n) + " />")]
    else if SimpleText(n.children) then
      [Line(depth, StartTag(n) + (">" + (Encode(n.children[0].value) + ("</" + UpToNul(n.name) + ">"))))]
    else [Line(depth, StartTag(n) + ">")] + AllLines(n.children, depth + 1) + [Line(depth, "</" + UpToNul(n.name) + ">")]
  }

  function AllLines(nodes: seq<Node>, depth: nat): seq<Line>
    decreases nodes, 1
  {
    if nodes == [] then [] else LinesOf(nodes[0], depth) + AllLines(nodes[1..], depth)
  }

  function Repeated(unit: string, count: nat): string {
    if count == 0 then "" else unit + Repeated(unit, count - 1)
  }

  /** The lines with their indentation and line breaks. */
  function Written(lines: seq<Line>, f: Format): string {
    if lines == [] then ""
    else Repeated(f.indent, lines[0].depth) + (lines[0].text + (f.lineBreak + Written(lines[1..], f)))
  }

  lemma {:induction false} IndentIsRepeated(depth: nat, f: Format)
    ensures Indent(depth, f) == Repeated(f.indent, depth)
  {
    if depth > 0 {
      IndentIsRepeated(depth - 1, f);
      RepeatedEnd(f.indent, depth - 1);
    }
  }

  lemma {:induction false} RepeatedEnd(unit: string, count: nat)
    ensures Repeated(unit, count) + unit == unit + Repeated(unit, count)
  {
    if count > 0 {
      RepeatedEnd(unit, count - 1);
      Assoc(unit, Repeated(unit, count - 1), unit);
    } else {
      assert "" + unit == unit + "";
    }
  }

  lemma {:induction false} WrittenJoin(a: seq<Line>, b: seq<Line>, f: Format)
    ensures Written(a + b, f) == Written(a, f) + Written(b, f)
  {
    if a == [] {
      assert a + b == b;
    } else {
      assert (a + b)[1..] == a[1..] + b;
      WrittenJoin(a[1..], b, f);
      var head := Repeated(f.indent, a[0].depth);
      Assoc(head, a[0].text + (f.lineBreak + Written(a[1..], f)), Written(b, f));
      Assoc(a[0].text, f.lineBreak + Written(a[1..], f), Written(b, f));
      Assoc(f.lineBreak, Written(a[1..], f), Written(b, f));
    }
  }

  /** One line. */
  lemma WrittenOne(depth: nat, text: string, f: Format)
    ensures Written([Line(depth, text)], f) == Indent(depth, f) + (text + f.lineBreak)
  {
    IndentIsRepeated(depth, f);
    var one := [Line(depth, text)];
    assert one[1..] == [] && f.lineBreak + "" == f.lineBreak;
  }

  lemma LeafLine(n: Node, depth: nat, f: Format)
    requires !n.Element?
    ensures PrintBody(n, depth, f) == PrintBody(n, 0, STREAM)
  {
  }

  /** The text of an element between its indentation and its last line break. */
  lemma ElementText(n: Node, depth: nat, f: Format, inside: string)
    requires n.Element? && n.children != [] && !SimpleText(n.children)
    requires inside == f.lineBreak + (PrintNodes(n.children, depth + 1, f) + (Indent(depth, f) + EndTag(n.name)))
    ensures PrintBody(n, depth, f) == StartTag(n) + (">" + inside)
  {
    Assoc("<", UpToNul(n.name) + PrintAttributes(Visible(n.attributes)), ">" + inside);
    Assoc(UpToNul(n.name), PrintAttributes(Visible(n.attributes)), ">" + inside);
  }

  lemma ShortElementText(n: Node, depth: nat, f: Format)
    requires n.Element? && (n.children == [] || SimpleText(n.children))
    ensures PrintBody(n, depth, f) == StartTag(n) + if n.children == [] then " />"
              else ">" + (Encode(n.children[0].value) + EndTag(n.name))
  {
    var tail := if n.children == [] then " />" else ">" + (Encode(n.children[0].value) + EndTag(n.name));
    Assoc("<", UpToNul(n.name) + PrintAttributes(Visible(n.attributes)), tail);
    Assoc(UpToNul(n.name), PrintAttributes(Visible(n.attributes)), tail);
  }

  lemma ThreeParts(i: string, tag: string, b: string, kids: string, end: string)
    ensures (i + (tag + b)) + (kids + (i + (end + b))) == i + ((tag + (b + (kids + (i + end)))) + b)
  {
    Assoc(i, tag + b, kids + (i + (end + b)));
    Assoc(tag, b, kids + (i + (end + b)));
    Assoc(tag, b + (kids + (i + end)), b);
    Assoc(b, kids + (i + end), b);
    Assoc(kids, i + end, b);
    Assoc(i, end, b);
  }

  /** A node is its lines, whatever the format. */
  lemma {:induction false} NodeIsLines(n: Node, depth: nat, f: Format)
    ensures Indent(depth, f) + (PrintBody(n, depth, f) + f.lineBreak) == Written(LinesOf(n, depth), f)
    decreases n, 0
  {
    if !n.Element? {
      LeafLine(n, depth, f);
      WrittenOne(depth, PrintBody(n, 0, STREAM), f);
    } else if n.children == [] || SimpleText(n.children) {
      ShortElementText(n, depth, f);
      WrittenOne(depth, PrintBody(n, depth, f), f);
    } else {
      NestedIsLines(n, depth, f);
    }
  }

  lemma {:induction false} NestedIsLines(n: Node, depth: nat, f: Format)
    requires n.Element? && n.children != [] && !SimpleText(n.children)
    ensures Indent(depth, f) + (PrintBody(n, depth, f) + f.lineBreak) == Written(LinesOf(n, depth), f)
    decreases n.children, 2
  {
    var first, last := [Line(depth, StartTag(n) + ">")], [Line(depth, EndTag(n.name))];
    var kids, i := AllLines(n.children, depth + 1), Indent(depth, f);
    NodesAreLines(n.children, depth + 1, f);
    WrittenJoin(first + kids, last, f);
    WrittenJoin(first, kids, f);
    WrittenOne(depth, StartTag(n) + ">", f);
    WrittenOne(depth, EndTag(n.name), f);
    var inside := f.lineBreak + (Written(kids, f) + (i + EndTag(n.name)));
    ElementText(n, depth, f, inside);
    Assoc(StartTag(n), ">", inside);
    Assoc(i + ((StartTag(n) + ">") + f.lineBreak), Written(kids, f), i + (EndTag(n.name) + f.lineBreak));
    ThreeParts(i, StartTag(n) + ">", f.lineBreak, Written(kids, f), EndTag(n.name));
  }

  /** A printed document consists of one line for every start tag, every end tag and every leaf, indented by its
      depth; an element without children or with a single text is one line. */
  lemma {:induction false} NodesAreLines(nodes: seq<Node>, depth: nat, f: Format)
    ensures PrintNodes(nodes, depth, f) == Written(AllLines(nodes, depth), f)
    decreases nodes, 1
  {
    if nodes != [] {
      NodeIsLines(nodes[0], depth, f);
      NodesAreLines(nodes[1..], depth, f);
      WrittenJoin(LinesOf(nodes[0], depth), AllLines(nodes[1..], depth), f);
      var rest := PrintNodes(nodes[1..], depth, f);
      Assoc(Indent(depth, f), PrintBody(nodes[0], depth, f) + f.lineBreak, rest);
      Assoc(PrintBody(nodes[0], depth, f), f.lineBreak, rest);
    }
  }

  /** A value is put between double quotes, and between single ones if there is a double quote in it. */
  lemma QuoteOf(a: Attribute)
    ensures var s, n := PrintAttribute(a), |Encode(a.name)|;
            && |s| == n + 3 + |Encode(a.value)| && s[..n] == Encode(a.name) && s[n + 2..|s| - 1] == Encode(a.value)
            && s[n] == '=' && s[n + 1] == s[|s| - 1] && s[n + 1] == if '"' in a.value then '\'' else '"'
  {
  }
}
