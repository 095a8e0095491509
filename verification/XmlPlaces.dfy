/** Where the nodes and attributes of a printed document are found: the calls of Stamp on the way through it. */
module XmlPlaces {
  import opened XmlText
  import opened XmlEncode
  import opened XmlTree
  import opened XmlParse
  import opened XmlPosition
  import opened XmlMarks
  import opened XmlRoundTrip
  import opened XmlErrors

  // ---- The places, told from the tree ----

  // A place is given by how much of the text is left there; r is the text behind what is printed.

  function Place(u: bool, left: string): seq<Mark> {
    [Mark(u, |left|)]
  }

  function AttributePlaces(u: bool, attrs: seq<Attribute>, r: string): seq<Mark> {
    if attrs == [] then []
    else Place(u, PrintAttribute(attrs[0]) + (PrintAttributes(attrs[1..]) + r)) + AttributePlaces(u, attrs[1..], r)
  }

  /** A field that is empty is not printed. */
  function FieldPlaces(u: bool, key: string, v: string, r: string): seq<Mark> {
    if v == "" then [] else Place(u, PrintField(key, v) + r)
  }

  function DeclarationPlaces(u: bool, d: Node, r: string): seq<Mark>
    requires d.Declaration?
  {
    var s3 := PrintField("standalone", d.standalone) + ("?>" + r);
    var s2 := PrintField("encoding", d.encoding) + s3;
    Place(u, "<?xml " + (PrintField("version", d.version) + s2))
    + (FieldPlaces(u, "version", d.version, s2)
       + (FieldPlaces(u, "encoding", d.encoding, s3) + FieldPlaces(u, "standalone", d.standalone, "?>" + r)))
  }

  /** The content of an element, and the end tag and what follows it. */
  function Inside(n: Node, depth: nat, f: Format, close: string): string
    requires n.Element? && n.children != []
  {
    if SimpleText(n.children) then Encode(n.children[0].value) + close
    else f.lineBreak + (PrintNodes(n.children, depth + 1, f) + (Indent(depth, f) + close))
  }

  /** The start of a node, then those of its attributes, then its children. */
  function NodePlaces(u: bool, n: Node, depth: nat, f: Format, r: string): seq<Mark>
    decreases n, 0
  {
    match n
    case Declaration(_, _, _) => DeclarationPlaces(u, n, r)
    case Element(name, attrs, children) =>
      Place(u, PrintBody(n, depth, f) + r)
      + (AttributePlaces(u, attrs, AfterName(n, depth, f, r))
         + if children == [] then []
           else if SimpleText(children) then Place(u, Inside(n, depth, f, EndTag(name) + r))
           else AllPlaces(u, children, depth + 1, f, Indent(depth, f) + (EndTag(name) + r)))
    case _ => Place(u, PrintBody(n, depth, f) + r)
  }

  function AllPlaces(u: bool, nodes: seq<Node>, depth: nat, f: Format, r: string): seq<Mark>
    decreases nodes, 1
  {
    if nodes == [] then []
    else NodePlaces(u, nodes[0], depth, f, f.lineBreak + (PrintNodes(nodes[1..], depth, f) + r))
         + AllPlaces(u, nodes[1..], depth, f, r)
  }

  /** At the top level a declaration may change the encoding of what follows. */
  function DocumentPlaces(enc: Encoding, nodes: seq<Node>, f: Format): seq<Mark>
    decreases |nodes|
  {
    if nodes == [] then []
    else NodePlaces(enc.Utf8?, nodes[0], 0, f, f.lineBreak + PrintNodes(nodes[1..], 0, f))
         + DocumentPlaces(After(enc, nodes[0]), nodes[1..], f)
  }

  lemma Grouped(a: seq<Mark>, b: seq<Mark>, c: seq<Mark>)
    ensures a + (b + c) == (a + b) + c
  {
  }

  // ---- Attributes ----

  /** An attribute that is read makes one call, at its start. */
  lemma AttributeCall(u: bool, s: string, e: Error, reports: bool)
    requires s != "" && !Skips(u, s) && ParseAttribute(u, s, e).p.At?
    ensures AttributeMarks(u, s, e, reports) == Place(u, s)
  {
    assert SkipWhiteSpace(u, At(s)) == At(s);
  }

  lemma AttributeCallStep(u: bool, a: Attribute, before: seq<Attribute>, s: string, t: string, after: string,
                          name: string, e: Error)
    requires PlainAttribute(u, a) && forall b <- before :: b.name != a.name
    requires s == " " + t && t == PrintAttribute(a) + after && after != ""
    ensures AttributesMarks(u, s, name, before, e) == Place(u, t) + AttributesMarks(u, after, name, before + [a], e)
  {
    AttributeRoundTrip(u, a, t, after, e);
    FindFresh(before, a.name);
    AttributeCall(u, t, e, true);
    assert s[0] == ' ' && s[1..] == t && DropWhiteSpace(u, s) == DropWhiteSpace(u, t) == t;
  }

  lemma ListSplits(u: bool, attrs: seq<Attribute>, i: nat, tail: string) returns (t: string, after: string)
    requires i < |attrs|
    ensures after == PrintAttributes(attrs[i + 1..]) + tail && t == PrintAttribute(attrs[i]) + after
    ensures PrintAttributes(attrs[i..]) + tail == " " + t
    ensures AttributePlaces(u, attrs[i..], tail) == Place(u, t) + AttributePlaces(u, attrs[i + 1..], tail)
    ensures attrs[..i] + [attrs[i]] == attrs[..i + 1] && attrs[i] in attrs
  {
    after := PrintAttributes(attrs[i + 1..]) + tail;
    t := PrintAttribute(attrs[i]) + after;
    PrintAttributesHead(attrs, i);
    Assoc(" ", PrintAttribute(attrs[i]) + PrintAttributes(attrs[i + 1..]), tail);
    Assoc(PrintAttribute(attrs[i]), PrintAttributes(attrs[i + 1..]), tail);
    assert attrs[i..][1..] == attrs[i + 1..];
  }

  lemma {:induction false} AttributesCalls(u: bool, attrs: seq<Attribute>, i: nat, name: string, s: string, tail: string,
                                           places: seq<Mark>, e: Error)
    requires i <= |attrs| && UniqueNames(attrs) && (forall a <- attrs :: PlainAttribute(u, a)) && tail != ""
    requires s == PrintAttributes(attrs[i..]) + tail && places == AttributePlaces(u, attrs[i..], tail)
    ensures AttributesMarks(u, s, name, attrs[..i], e) == places + AttributesMarks(u, tail, name, attrs, e)
    decreases |attrs| - i
  {
    if i == |attrs| {
      assert attrs[..i] == attrs && s == tail;
      assert places == [];
    } else {
      var t, after := ListSplits(u, attrs, i, tail);
      var others := AttributePlaces(u, attrs[i + 1..], tail);
      FreshName(attrs, i);
      AttributeCallStep(u, attrs[i], attrs[..i], s, t, after, name, e);
      AttributesCalls(u, attrs, i + 1, name, after, tail, others, e);
      Grouped(Place(u, t), others, AttributesMarks(u, tail, name, attrs, e));
    }
  }

  // ---- Declarations ----

  lemma SpaceBeforeFieldCalls(u: bool, r: string)
    requires FieldStart(r)
    ensures FieldMarks(u, At(" " + r)) == FieldMarks(u, At(r))
  {
    assert (" " + r)[1..] == r && DropWhiteSpace(u, " " + r) == r;
  }

  /** A field, whether it is read to its end or not, makes one call: what is wrong with it is not reported. */
  lemma FieldTaken(u: bool, s: string, next: Ptr)
    requires s != "" && s[0] != '>' && DropWhiteSpace(u, s) == s && IsField(s)
    requires next == ParseAttribute(u, s, NoError).p
    ensures FieldMarks(u, At(s)) == Place(u, s) + FieldMarks(u, next)
  {
    FieldCall(u, s);
  }

  lemma FieldCall(u: bool, s: string)
    requires s != "" && DropWhiteSpace(u, s) == s
    ensures AttributeMarks(u, s, NoError, false) == Place(u, s)
  {
    assert SkipWhiteSpace(u, At(s)) == At(s);
  }

  lemma PrintedFieldReads(u: bool, key: string, v: string, s: string, r: string)
    requires key == "version" || key == "encoding" || key == "standalone"
    requires v != "" && s == PrintField(key, v) + r && PlainField(u, v)
    ensures ParseAttribute(u, s, NoError).p == At(" " + r) && key <= s
  {
    FieldShape(key, v, s, r);
    FieldValue(u, key, v, s, " " + r, NoError);
  }

  lemma KeyIsField(u: bool, key: string, s: string)
    requires (key == "version" || key == "encoding" || key == "standalone") && key <= s
    ensures s != "" && s[0] != '>' && DropWhiteSpace(u, s) == s && IsField(s)
  {
    KeyRecognised(u, key, s);
  }

  lemma FieldCalls(u: bool, key: string, v: string, s: string, r: string)
    requires key == "version" || key == "encoding" || key == "standalone"
    requires s == PrintField(key, v) + r && PlainField(u, v) && FieldStart(r)
    ensures FieldMarks(u, At(s)) == FieldPlaces(u, key, v, r) + FieldMarks(u, At(r))
  {
    if v == "" {
      assert s == r;
      assert FieldPlaces(u, key, v, r) + FieldMarks(u, At(r)) == FieldMarks(u, At(r));
    } else {
      PrintedFieldReads(u, key, v, s, r);
      KeyIsField(u, key, s);
      FieldTaken(u, s, At(" " + r));
      SpaceBeforeFieldCalls(u, r);
    }
  }

  lemma FieldsEnd(u: bool, s: string, r: string)
    requires s == "?>" + r
    ensures FieldMarks(u, At(s)) == []
  {
    assert s[0] == '?' && s[1] == '>' && DropWhiteSpace(u, s) == s;
    assert TokenLength(s[1..]) == 0 && TokenLength(s) == 1;
    NoKeyword(s);
    assert FieldMarks(u, At(s[1..])) == [];
  }

  lemma DeclarationStarts(u: bool, s: string, s1: string)
    requires SkipWhiteSpace(u, At(s)) == At(s) && s == "<?xml " + s1 && s[5..] == " " + s1
    requires PrefixIgnoringCase("<?xml", s) && FieldStart(s1)
    ensures DeclarationMarks(u, s) == Place(u, s) + FieldMarks(u, At(s1))
  {
    SpaceBeforeFieldCalls(u, s1);
  }

  lemma FieldsCalls(u: bool, d: Node, s1: string, s2: string, s3: string, end: string, r: string)
    requires d.Declaration? && WellFormed(u, d) && end == "?>" + r
    requires s1 == PrintField("version", d.version) + s2 && s2 == PrintField("encoding", d.encoding) + s3
    requires s3 == PrintField("standalone", d.standalone) + end
    requires FieldStart(s2) && FieldStart(s3) && FieldStart(end)
    ensures FieldMarks(u, At(s1))
         == FieldPlaces(u, "version", d.version, s2)
            + (FieldPlaces(u, "encoding", d.encoding, s3) + FieldPlaces(u, "standalone", d.standalone, end))
  {
    FieldCalls(u, "version", d.version, s1, s2);
    FieldCalls(u, "encoding", d.encoding, s2, s3);
    FieldCalls(u, "standalone", d.standalone, s3, end);
    FieldsEnd(u, end, r);
    assert FieldPlaces(u, "standalone", d.standalone, end) + [] == FieldPlaces(u, "standalone", d.standalone, end);
  }

  lemma DeclarationCalls(u: bool, s: string, d: Node, r: string)
    requires d.Declaration? && WellFormed(u, d) && s == PrintBody(d, 0, STREAM) + r
    ensures DeclarationMarks(u, s) == DeclarationPlaces(u, d, r)
  {
    var end := "?>" + r;
    var s3 := PrintField("standalone", d.standalone) + end;
    var s2 := PrintField("encoding", d.encoding) + s3;
    var s1 := PrintField("version", d.version) + s2;
    DeclarationShape(u, s, d, r, s1, s2, s3, end);
    DeclarationStarts(u, s, s1);
    FieldsCalls(u, d, s1, s2, s3, end, r);
  }

  // ---- Leaves ----

  lemma CommentCalls(u: bool, s: string, v: string, r: string, e: Error)
    requires s == "<!--" + (v + ("-->" + r))
    ensures s[0] == '<' && NodeMarks(u, s, e) == Place(u, s)
  {
    KindByPrefix(s);
    assert SkipWhiteSpace(u, At(s)) == At(s);
  }

  lemma SectionCalls(u: bool, s: string, v: string, r: string, e: Error)
    requires s == "<![CDATA[" + (v + ("]]>" + r))
    ensures s[0] == '<' && NodeMarks(u, s, e) == Place(u, s)
  {
    KindByPrefix(s);
  }

  lemma UnknownCalls(u: bool, s: string, e: Error)
    requires s != "" && s[0] == '<' && Identify(s) == UnknownKind
    ensures NodeMarks(u, s, e) == Place(u, s)
  {
    assert SkipWhiteSpace(u, At(s)) == At(s);
  }

  lemma TextIs(open: string, v: string, close: string, s: string, r: string)
    requires s == (open + (v + close)) + r
    ensures s == open + (v + (close + r))
  {
    Assoc(open, v + close, r);
    Assoc(v, close, r);
  }

  lemma LeafCalls(u: bool, n: Node, s: string, r: string, e: Error)
    requires WellFormed(u, n) && !n.Element? && !n.Declaration? && !IsPlainText(n) && s == PrintBody(n, 0, STREAM) + r
    ensures s != "" && s[0] == '<' && NodeMarks(u, s, e) == Place(u, s)
  {
    match n
    case Text(v, _) =>
      TextIs("<![CDATA[", UpToNul(v), "]]>", s, r);
      SectionCalls(u, s, UpToNul(v), r, e);
    case Comment(v) =>
      TextIs("<!--", UpToNul(v), "-->", s, r);
      CommentCalls(u, s, UpToNul(v), r, e);
    case Unknown(v) =>
      UnknownKindOf(v, s, r);
      UnknownCalls(u, s, e);
  }

  lemma DeclarationNodeCalls(u: bool, n: Node, s: string, r: string, e: Error)
    requires n.Declaration? && WellFormed(u, n) && s == PrintBody(n, 0, STREAM) + r
    ensures s != "" && s[0] == '<' && NodeMarks(u, s, e) == DeclarationPlaces(u, n, r)
  {
    DeclarationKindOf(u, n, s, r);
    DeclarationCalls(u, s, n, r);
  }

  // ---- Elements ----

  lemma ElementStarts(u: bool, s: string, e: Error)
    requires s != "" && s[0] == '<' && Identify(s) == ElementKind
    ensures NodeMarks(u, s, e) == Place(u, s) + TagMarks(u, s, e)
  {
    assert SkipWhiteSpace(u, At(s)) == At(s);
  }

  lemma NameTaken(u: bool, s: string, t: string, name: string, after: string, e: Error)
    requires s != "" && s[0] == '<' && s[1..] == t && SkipWhiteSpace(u, At(t)) == At(t)
    requires ReadName(At(t)) == NameResult(At(after), name) && after != ""
    ensures TagMarks(u, s, e) == AttributesMarks(u, after, name, [], e)
  {
  }

  lemma NameCalls(u: bool, s: string, name: string, t: string, after: string, e: Error)
    requires ReadableName(u, name) && after != "" && (after[0] == ' ' || after[0] == '>')
    requires s == "<" + t && t == name + after
    ensures s[0] == '<' && NodeMarks(u, s, e) == Place(u, s) + AttributesMarks(u, after, name, [], e)
  {
    NameNotSkipped(u, name, after);
    assert s[0] == '<' && s[1..] == t && s[1] == t[0] == name[0];
    KindByPrefix(s);
    ReadNameConcat(name, after);
    ElementStarts(u, s, e);
    NameTaken(u, s, t, name, after, e);
  }

  /** The start tag of an element. */
  lemma TagCalls(u: bool, n: Node, s: string, tail: string, e: Error)
    requires n.Element? && WellFormed(u, n) && tail != "" && (tail[0] == ' ' || tail[0] == '>')
    requires s == "<" + (n.name + (PrintAttributes(Visible(n.attributes)) + tail))
    ensures s[0] == '<'
    ensures NodeMarks(u, s, e)
         == Place(u, s) + (AttributePlaces(u, n.attributes, tail) + AttributesMarks(u, tail, n.name, n.attributes, e))
  {
    var after := PrintAttributes(Visible(n.attributes)) + tail;
    assert after != "" && (after[0] == ' ' || after[0] == '>');
    NameCalls(u, s, n.name, n.name + after, after, e);
    AllVisible(u, n.attributes);
    assert n.attributes[0..] == n.attributes && n.attributes[..0] == [];
    AttributesCalls(u, n.attributes, 0, n.name, after, tail, AttributePlaces(u, n.attributes, tail), e);
  }

  lemma EmptyTagCalls(u: bool, n: Node, r: string, e: Error)
    requires n.Element?
    ensures AttributesMarks(u, " />" + r, n.name, n.attributes, e) == []
  {
    var s := " />" + r;
    assert s[0] == ' ' && s[1] == '/' && s[2] == '>' && s[1..][2..] == r;
    assert DropWhiteSpace(u, s) == s[1..];
  }

  lemma ContentCalls(u: bool, n: Node, inside: string, r: string, e: Error)
    requires n.Element?
    requires ReadValue(u, At(inside), [], e) == NodesResult(At(EndTag(n.name) + r), n.children, e)
    ensures AttributesMarks(u, ">" + inside, n.name, n.attributes, e) == ChildMarks(u, At(inside), e)
  {
    var s := ">" + inside;
    assert s[0] == '>' && s[1..] == inside && DropWhiteSpace(u, s) == s;
  }

  lemma EndTagCalls(u: bool, close: string, e: Error)
    requires "</" <= close
    ensures DropWhiteSpace(u, close) == close && ChildMarks(u, At(close), e) == []
  {
    assert close[0] == '<' && SkipWhiteSpace(u, At(close)) == At(close);
  }

  lemma ChildCallsSkip(u: bool, s: string, t: string, e: Error)
    requires t == DropWhiteSpace(u, s) && t != ""
    ensures ChildMarks(u, At(s), e) == ChildMarks(u, At(t), e)
  {
    assert DropWhiteSpace(u, t) == t;
    assert SkipWhiteSpace(u, At(s)) == At(t) == SkipWhiteSpace(u, At(t));
  }

  lemma TextCalls(u: bool, s: string, v: string, t: string, e: Error)
    requires s != "" && !Skips(u, s) && s[0] != '<' && ReadText(u, At(s), "<", true) == TextResult(At(t), v)
    ensures ChildMarks(u, At(s), e) == Place(u, s) + ChildMarks(u, At(t), e)
  {
    assert SkipWhiteSpace(u, At(s)) == At(s);
    assert ParseText(u, s) == TextResult(At(t), v);
  }

  lemma PlainTextCalls(u: bool, v: string, w: string, t: string, s: string, e: Error)
    requires PlainText(u, v) && AllWhiteSpace(w) && t != "" && t[0] == '<' && s == Encode(v) + (w + t)
    ensures ChildMarks(u, At(s), e) == Place(u, s) + ChildMarks(u, At(t), e)
  {
    PlainTextRead(u, v, w, t, s);
    PlainTextStarts(u, v, w + t, s);
    TextCalls(u, s, v, t, e);
  }

  lemma NodeCallsStep(u: bool, t: string, y: string, y': string, n: Node, e: Error)
    requires t != "" && t[0] == '<' && !("</" <= t) && ParseNode(u, t, e) == NodeResult(At(y), n, e)
    requires y' == DropWhiteSpace(u, y) && y' != ""
    ensures ChildMarks(u, At(t), e) == NodeMarks(u, t, e) + ChildMarks(u, At(y'), e)
  {
    assert SkipWhiteSpace(u, At(t)) == At(t);
    ChildCallsSkip(u, y, y', e);
  }

  /** An element with everything below it. */
  lemma {:induction false} ElementCalls(u: bool, n: Node, depth: nat, f: Format, s: string, r: string,
                                        places: seq<Mark>, e: Error)
    requires n.Element? && WellFormed(u, n) && Layout(f) && s == PrintBody(n, depth, f) + r
    requires places == NodePlaces(u, n, depth, f, r)
    ensures s != "" && s[0] == '<' && NodeMarks(u, s, e) == places
    decreases n, 0
  {
    var tail := AfterName(n, depth, f, r);
    ElementShape(n, depth, f, s, r);
    NameIsAll(n.name);
    TagCalls(u, n, s, tail, e);
    if n.children == [] {
      EmptyTagCalls(u, n, r, e);
    } else {
      var close := EndTag(n.name) + r;
      ElementContentCalls(u, n, depth, f, tail, close, r,
        if SimpleText(n.children) then Place(u, Inside(n, depth, f, close))
        else AllPlaces(u, n.children, depth + 1, f, Indent(depth, f) + close), e);
    }
  }

  lemma {:induction false} ElementContentCalls(u: bool, n: Node, depth: nat, f: Format, tail: string, close: string,
                                               r: string, places: seq<Mark>, e: Error)
    requires n.Element? && n.children != [] && WellFormed(u, n) && Layout(f) && tail == AfterName(n, depth, f, r)
    requires close == EndTag(n.name) + r
    requires places == if SimpleText(n.children) then Place(u, Inside(n, depth, f, close))
                       else AllPlaces(u, n.children, depth + 1, f, Indent(depth, f) + close)
    ensures AttributesMarks(u, tail, n.name, n.attributes, e) == places
    decreases n.children, 3
  {
    var inside := Inside(n, depth, f, close);
    assert tail == ">" + inside;
    InsideReads(u, n, depth, f, inside, close, r, e);
    if SimpleText(n.children) {
      OnlyTextCalls(u, n, inside, close, e);
    } else {
      ChildrenCalls(u, n, depth, f, inside, close, places, e);
    }
  }

  lemma InsideReads(u: bool, n: Node, depth: nat, f: Format, inside: string, close: string, r: string, e: Error)
    requires n.Element? && n.children != [] && WellFormed(u, n) && Layout(f)
    requires close == EndTag(n.name) + r && inside == Inside(n, depth, f, close)
    ensures "</" <= close
    ensures AttributesMarks(u, ">" + inside, n.name, n.attributes, e) == ChildMarks(u, At(inside), e)
  {
    ChildrenRoundTrip(u, n, depth, f, inside, close, e);
    ContentCalls(u, n, inside, r, e);
  }

  lemma OnlyTextCalls(u: bool, n: Node, inside: string, close: string, e: Error)
    requires n.Element? && WellFormed(u, n) && SimpleText(n.children) && "</" <= close
    requires inside == Encode(n.children[0].value) + close
    ensures ChildMarks(u, At(inside), e) == Place(u, inside)
  {
    var v := n.children[0].value;
    EndTagCalls(u, close, e);
    assert close[0] == '<' && n.children[0] == Text(v, false) && WellFormed(u, n.children[0]);
    assert "" + close == close;
    PlainTextCalls(u, v, "", close, inside, e);
    assert Place(u, inside) + [] == Place(u, inside);
  }

  lemma {:induction false} ChildrenCalls(u: bool, n: Node, depth: nat, f: Format, inside: string, close: string,
                                         places: seq<Mark>, e: Error)
    requires n.Element? && n.children != [] && WellFormed(u, n) && !SimpleText(n.children) && Layout(f) && "</" <= close
    requires inside == Inside(n, depth, f, close)
    requires places == AllPlaces(u, n.children, depth + 1, f, Indent(depth, f) + close)
    ensures ChildMarks(u, At(inside), e) == places
    decreases n.children, 2
  {
    var w := Indent(depth, f);
    var y := PrintNodes(n.children, depth + 1, f) + (w + close);
    var t := DropWhiteSpace(u, y);
    IndentIsWhiteSpace(depth, f);
    NodesCalls(u, n.children, depth + 1, f, w, close, y, t, places, e);
    DropAfterSpace(u, f.lineBreak, y);
    ChildCallsSkip(u, inside, t, e);
  }

  lemma NoNodesCalls(u: bool, w: string, close: string, e: Error)
    requires AllWhiteSpace(w) && "</" <= close
    ensures DropWhiteSpace(u, w + close) == close && ChildMarks(u, At(close), e) == []
  {
    DropAfterSpace(u, w, close);
    EndTagCalls(u, close, e);
  }

  /** Printed nodes one by one, up to the end tag. */
  lemma {:induction false} NodesCalls(u: bool, nodes: seq<Node>, depth: nat, f: Format, w: string, close: string,
                                      s: string, t: string, places: seq<Mark>, e: Error)
    requires WellFormedChildren(u, nodes) && Layout(f) && AllWhiteSpace(w) && "</" <= close
    requires s == PrintNodes(nodes, depth, f) + (w + close) && t == DropWhiteSpace(u, s)
    requires places == AllPlaces(u, nodes, depth, f, w + close)
    ensures t != "" && ChildMarks(u, At(t), e) == places
    decreases nodes, 1
  {
    if nodes == [] {
      assert s == w + close;
      NoNodesCalls(u, w, close, e);
    } else {
      var tail := PrintNodes(nodes[1..], depth, f) + (w + close);
      var t', others := DropWhiteSpace(u, tail), AllPlaces(u, nodes[1..], depth, f, w + close);
      var y := f.lineBreak + tail;
      NodesCalls(u, nodes[1..], depth, f, w, close, tail, t', others, e);
      FirstStarts(u, nodes, depth, f, w, close, s, t, tail);
      FirstCalls(u, nodes, depth, f, w, close, t, tail, t', NodePlaces(u, nodes[0], depth, f, y), e);
    }
  }

  lemma FirstStarts(u: bool, nodes: seq<Node>, depth: nat, f: Format, w: string, close: string, s: string, t: string,
                    tail: string)
    requires WellFormedChildren(u, nodes) && nodes != [] && Layout(f) && AllWhiteSpace(w) && "</" <= close
    requires s == PrintNodes(nodes, depth, f) + (w + close) && tail == PrintNodes(nodes[1..], depth, f) + (w + close)
    requires t == DropWhiteSpace(u, s)
    ensures t != "" && t == PrintBody(nodes[0], depth, f) + (f.lineBreak + tail)
  {
    var _, start := NodesStart(u, nodes, depth, f, w, close);
  }

  lemma {:induction false} FirstCalls(u: bool, nodes: seq<Node>, depth: nat, f: Format, w: string, close: string,
                                      t: string, tail: string, t': string, places: seq<Mark>, e: Error)
    requires WellFormedChildren(u, nodes) && nodes != [] && Layout(f) && AllWhiteSpace(w) && "</" <= close
    requires tail == PrintNodes(nodes[1..], depth, f) + (w + close) && t' == DropWhiteSpace(u, tail) && t' != ""
    requires t == PrintBody(nodes[0], depth, f) + (f.lineBreak + tail)
    requires places == NodePlaces(u, nodes[0], depth, f, f.lineBreak + tail)
    ensures ChildMarks(u, At(t), e) == places + ChildMarks(u, At(t'), e)
    decreases nodes, 0
  {
    DropAfterSpace(u, f.lineBreak, tail);
    if IsPlainText(nodes[0]) {
      FirstTextCalls(u, nodes, depth, f, w, close, t, tail, t', e);
    } else {
      ChildCallsStep(u, nodes[0], depth, f, t, f.lineBreak + tail, t', places, e);
    }
  }

  lemma FirstTextCalls(u: bool, nodes: seq<Node>, depth: nat, f: Format, w: string, close: string,
                       t: string, tail: string, t': string, e: Error)
    requires WellFormedChildren(u, nodes) && nodes != [] && IsPlainText(nodes[0])
    requires Layout(f) && AllWhiteSpace(w) && "</" <= close
    requires tail == PrintNodes(nodes[1..], depth, f) + (w + close) && t' == DropWhiteSpace(u, tail)
    requires t == Encode(nodes[0].value) + (f.lineBreak + tail)
    ensures ChildMarks(u, At(t), e) == Place(u, t) + ChildMarks(u, At(t'), e)
  {
    var space, start := NodesStart(u, nodes[1..], depth, f, w, close);
    Assoc(f.lineBreak, space, start);
    PlainTextCalls(u, nodes[0].value, f.lineBreak + space, start, t, e);
  }

  lemma {:induction false} NodeCalls(u: bool, n: Node, depth: nat, f: Format, t: string, y: string,
                                     places: seq<Mark>, e: Error)
    requires WellFormed(u, n) && !IsPlainText(n) && Layout(f) && t == PrintBody(n, depth, f) + y
    requires places == NodePlaces(u, n, depth, f, y)
    ensures t != "" && t[0] == '<' && NodeMarks(u, t, e) == places
    decreases n, 1
  {
    if n.Element? {
      ElementCalls(u, n, depth, f, t, y, places, e);
    } else if n.Declaration? {
      DeclarationNodeCalls(u, n, t, y, e);
    } else {
      LeafCalls(u, n, t, y, e);
    }
  }

  lemma {:induction false} ChildCallsStep(u: bool, n: Node, depth: nat, f: Format, t: string, y: string, t': string,
                                          places: seq<Mark>, e: Error)
    requires WellFormed(u, n) && !IsPlainText(n) && !LooksLikeEndTag(n) && Layout(f)
    requires t' == DropWhiteSpace(u, y) && t' != "" && t == PrintBody(n, depth, f) + y
    requires places == NodePlaces(u, n, depth, f, y)
    ensures ChildMarks(u, At(t), e) == places + ChildMarks(u, At(t'), e)
    decreases n, 2
  {
    BodyStarts(u, n, depth, f, y);
    NodeRoundTrip(u, n, depth, f, t, y, e);
    NodeCalls(u, n, depth, f, t, y, places, e);
    NodeCallsStep(u, t, y, t', n, e);
  }

  // ---- Documents ----

  lemma DocumentCallsStep(enc: Encoding, t: string, y: string, n: Node)
    requires t != "" && t[0] == '<' && ParseNode(enc.Utf8?, t, NoError) == NodeResult(At(y), n, NoError)
    ensures DocumentMarks(enc, At(t), NoError)
         == NodeMarks(enc.Utf8?, t, NoError)
            + DocumentMarks(After(enc, n), SkipWhiteSpace(After(enc, n).Utf8?, At(y)), NoError)
  {
  }

  lemma TopLevelCalls(enc: Encoding, n: Node, f: Format, w: string, t: string, y: string, places: seq<Mark>)
    requires WellFormed(enc.Utf8?, n) && !IsPlainText(n) && Layout(f) && AllWhiteSpace(w) && t == PrintBody(n, 0, f) + y
    requires places == NodePlaces(enc.Utf8?, n, 0, f, y)
    ensures DocumentMarks(enc, SkipWhiteSpace(enc.Utf8?, At(w + t)), NoError)
         == places + DocumentMarks(After(enc, n), SkipWhiteSpace(After(enc, n).Utf8?, At(y)), NoError)
  {
    NodeRoundTrip(enc.Utf8?, n, 0, f, t, y, NoError);
    NodeCalls(enc.Utf8?, n, 0, f, t, y, places, NoError);
    DropWhiteSpaceConcat(enc.Utf8?, w, t);
    DocumentCallsStep(enc, t, y, n);
  }

  lemma NoneAtTheEnd(enc: Encoding, w: string)
    requires AllWhiteSpace(w)
    ensures DocumentMarks(enc, SkipWhiteSpace(enc.Utf8?, At(w)), NoError) == []
  {
    assert w + "" == w;
    DropWhiteSpaceConcat(enc.Utf8?, w, "");
  }

  lemma {:induction false} PrintedCalls(enc: Encoding, nodes: seq<Node>, f: Format, w: string, s: string,
                                        places: seq<Mark>)
    requires WellFormedTop(enc, nodes) && Layout(f) && AllWhiteSpace(w) && s == w + PrintNodes(nodes, 0, f)
    requires places == DocumentPlaces(enc, nodes, f)
    ensures DocumentMarks(enc, SkipWhiteSpace(enc.Utf8?, At(s)), NoError) == places
    decreases |nodes|
  {
    if nodes == [] {
      assert s == w;
      NoneAtTheEnd(enc, w);
    } else {
      var n, y := nodes[0], f.lineBreak + PrintNodes(nodes[1..], 0, f);
      var t := PrintBody(n, 0, f) + y;
      assert Indent(0, f) + t == t;
      PrintedCalls(After(enc, n), nodes[1..], f, f.lineBreak, y, DocumentPlaces(After(enc, n), nodes[1..], f));
      TopLevelCalls(enc, n, f, w, t, y, NodePlaces(enc.Utf8?, n, 0, f, y));
    }
  }

  /** On the way through a printed well-formed document Stamp is called at the start of every node, of every
      attribute and of every printed field, in the order of the document, and nowhere else. */
  lemma CallsAreAtStarts(enc: Encoding, nodes: seq<Node>, f: Format)
    requires WellFormedDocument(enc, nodes) && Layout(f)
    ensures ParseMarks(enc, PrintDocument(nodes, f)) == DocumentPlaces(enc, nodes, f)
  {
    var s := PrintNodes(nodes, 0, f);
    assert "" + s == s;
    TopLevelRoundTrip(enc, nodes, f, "", s, []);
    PrintedCalls(enc, nodes, f, "", s, DocumentPlaces(enc, nodes, f));
    assert BYTE_ORDER_MARK[0] as int == 0xEF;
  }

  // ---- The places of errors ----

  /** Only the first error has a place. */
  function ErrorPlace(u: bool, e: Error, left: string): seq<Mark> {
    if e == NoError then Place(u, left) else []
  }

  /** A wrong end tag is where it stands, behind the places of the attributes and children. */
  lemma WrongEndTagPlace(u: bool, n: Node, depth: nat, f: Format, s: string, inside: string, y: string, e: Error)
    requires n.Element? && n.children != [] && WellFormed(u, n) && Layout(f)
    requires "</" <= y && !("</" + n.name + ">" <= y) && inside == Inside(n, depth, f, y)
    requires s == "<" + (n.name + (PrintAttributes(Visible(n.attributes)) + (">" + inside)))
    ensures s[0] == '<'
    ensures NodeMarks(u, s, e)
         == Place(u, s) + (AttributePlaces(u, n.attributes, ">" + inside)
            + ((if SimpleText(n.children) then Place(u, inside)
                else AllPlaces(u, n.children, depth + 1, f, Indent(depth, f) + y)) + ErrorPlace(u, e, y)))
  {
    NameIsAll(n.name);
    TagCalls(u, n, s, ">" + inside, e);
    ChildrenRoundTrip(u, n, depth, f, inside, y, e);
    WrongEndTagCalls(u, n, inside, y, e);
    if SimpleText(n.children) {
      OnlyTextCalls(u, n, inside, y, e);
    } else {
      ChildrenCalls(u, n, depth, f, inside, y, AllPlaces(u, n.children, depth + 1, f, Indent(depth, f) + y), e);
    }
  }

  lemma WrongEndTagCalls(u: bool, n: Node, inside: string, y: string, e: Error)
    requires n.Element? && ReadValue(u, At(inside), [], e) == NodesResult(At(y), n.children, e)
    requires "</" <= y && !(EndTag(n.name) <= y)
    ensures AttributesMarks(u, ">" + inside, n.name, n.attributes, e)
         == ChildMarks(u, At(inside), e) + ErrorPlace(u, e, y)
  {
    var s := ">" + inside;
    assert s[0] == '>' && s[1..] == inside && DropWhiteSpace(u, s) == s;
  }

  /** A start tag cut off is where the white space behind its attributes begins, or behind its slash. */
  lemma BrokenTagPlace(u: bool, n: Node, tail: string, e: Error)
    requires n.Element? && tail != "" && tail[0] == ' '
    ensures AllWhiteSpace(tail) ==> AttributesMarks(u, tail, n.name, n.attributes, e) == ErrorPlace(u, e, tail)
    ensures |tail| > 1 && tail[1] == '/' && (|tail| > 2 ==> tail[2] != '>') ==>
              AttributesMarks(u, tail, n.name, n.attributes, e) == ErrorPlace(u, e, tail[2..])
  {
    if AllWhiteSpace(tail) {
      assert tail + "" == tail;
      DropWhiteSpaceConcat(u, tail, "");
    } else if |tail| > 1 && tail[1] == '/' {
      assert DropWhiteSpace(u, tail) == tail[1..] && tail[1..][1..] == tail[2..];
    }
  }

  /** A name at the end of the text is where it starts. */
  lemma NamePlace(u: bool, name: string, s: string, e: Error)
    requires ReadableName(u, name) && s == "<" + name
    ensures s[0] == '<' && NodeMarks(u, s, e) == Place(u, s) + ErrorPlace(u, e, name)
  {
    assert name + "" == name;
    NameNotSkipped(u, name, "");
    assert s[0] == '<' && s[1..] == name && s[1] == name[0];
    KindByPrefix(s);
    ReadNameConcat(name, "");
    ElementStarts(u, s, e);
    assert SkipWhiteSpace(u, At(name)) == At(name);
  }

  /** A missing equals sign is where something else stands instead, or where the name starts if the text ends. */
  lemma NoEqualsPlace(u: bool, name: string, w: string, after: string, s: string, e: Error)
    requires ReadableName(u, name) && AllWhiteSpace(w) && !Skips(u, after) && s == name + (w + after)
    requires after == "" || after[0] != '='
    requires w == "" && after != "" ==> !IsNameChar(after[0])
    ensures AttributeMarks(u, s, e, true)
         == Place(u, s) + if w + after == "" then ErrorPlace(u, e, s) else ErrorPlace(u, e, after)
  {
    if w == "" {
      assert w + after == after;
    } else {
      assert (w + after)[0] == w[0] && w[0] in w && !IsNameChar(w[0]);
    }
    NameAndMore(u, name, w + after, s);
    DropWhiteSpaceConcat(u, w, after);
  }

  /** A missing name is where it should start, and a quote behind a bare value where it stands. */
  lemma BadNamePlace(u: bool, s: string, e: Error)
    requires s != "" && !Skips(u, s) && !IsNameStart(s[0])
    ensures AttributeMarks(u, s, e, true) == Place(u, s) + ErrorPlace(u, e, s)
  {
    assert SkipWhiteSpace(u, At(s)) == At(s);
  }

  lemma BareCalls(u: bool, v: string, after: string, e: Error)
    requires v != "" && Bare(v) && EndsBare(after)
    ensures ValueMarks(u, v + after, e)
         == if after != "" && (after[0] == '\'' || after[0] == '"') then ErrorPlace(u, e, after) else []
  {
    assert (v + after)[0] == v[0] && v[0] in v;
    UnquotedIs(v, after);
    assert (v + after)[|v|..] == after && (after != "" ==> (v + after)[|v|] == after[0]);
  }

  lemma BareValuePlace(u: bool, name: string, v: string, after: string, s: string, e: Error)
    requires ReadableName(u, name) && v != "" && Bare(v) && EndsBare(after) && !Skips(u, v + after)
    requires s == name + ("=" + (v + after))
    ensures AttributeMarks(u, s, e, true)
         == Place(u, s) + if after != "" && (after[0] == '\'' || after[0] == '"') then ErrorPlace(u, e, after) else []
  {
    var more := "=" + (v + after);
    NameAndMore(u, name, more, s);
    assert more[0] == '=' && more[1..] == v + after;
    assert SkipWhiteSpace(u, At(more)) == At(more) && SkipWhiteSpace(u, At(v + after)) == At(v + after);
    BareCalls(u, v, after, e);
  }

  /** An attribute that is not read to its end makes the element give up: where it starts, unless it reported. */
  lemma BrokenAttributePlace(u: bool, name: string, attrs: seq<Attribute>, t: string, e: Error)
    requires t != "" && !Skips(u, t) && t[0] != '/' && t[0] != '>'
    requires var a := ParseAttribute(u, t, e); a.p.Null? || a.p == At("")
    ensures AttributesMarks(u, t, name, attrs, e)
         == AttributeMarks(u, t, e, true) + ErrorPlace(u, ParseAttribute(u, t, e).err, t)
  {
    assert DropWhiteSpace(u, t) == t;
  }

  /** A declaration has its place, and its fields have theirs. */
  lemma DeclarationPlace(u: bool, s: string, e: Error)
    requires StartsDeclaration(s)
    ensures NodeMarks(u, s, e) == Place(u, s) + FieldMarks(u, At(s[5..]))
  {
    DeclarationInAnyCase(u, s, e);
    assert SkipWhiteSpace(u, At(s)) == At(s);
  }

  /** So is the text that is not the node expected there; only a declaration has no place then. */
  lemma NotThatNodePlace(u: bool, s: string, e: Error)
    requires s != "" && !Skips(u, s)
    ensures !("<!--" <= s) ==> CommentMarks(u, s, e) == Place(u, s) + ErrorPlace(u, e, s)
    ensures !("<![CDATA[" <= s) ==> CDataMarks(u, s, e) == Place(u, s) + ErrorPlace(u, e, s)
    ensures s[0] != '<' ==> UnknownMarks(u, s, e) == Place(u, s) + ErrorPlace(u, e, s)
    ensures s[0] != '<' ==> ElementMarks(u, s, e) == Place(u, s) + ErrorPlace(u, e, s)
    ensures !PrefixIgnoringCase("<?xml", s) ==> DeclarationMarks(u, s) == []
  {
    assert SkipWhiteSpace(u, At(s)) == At(s);
  }
}
