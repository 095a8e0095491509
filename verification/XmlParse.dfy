/** The recursive-descent parser of tinyxmlparser.cpp as functions on the remaining text, with white
    space condensed (the library's default).  Each function returns the pointer the C++ function
    returns, the node as far as it was filled in, and the document's error state, in which only the
    first error is kept. */
module XmlParse {
  import opened Sequences
  import opened XmlText
  import opened XmlEntity
  import opened XmlEncode
  import opened XmlTree

  datatype Error =
    | NoError | ParsingElement | ElementName | ElementValue | ReadingAttributes | ParsingEmpty
    | ReadingEndTag | ParsingUnknown | ParsingComment | ParsingDeclaration | DocumentEmpty | ParsingCData

  /** TiXmlDocument::SetError: the first error in a chain stays. */
  function SetError(e: Error, id: Error): Error {
    if e == NoError then id else e
  }

  datatype NodeResult = NodeResult(p: Ptr, node: Node, err: Error)
  datatype NodesResult = NodesResult(p: Ptr, nodes: seq<Node>, err: Error)
  datatype AttributeResult = AttributeResult(p: Ptr, attribute: Attribute, err: Error)

  // ---- Identify ----

  datatype Kind = DeclarationKind | CommentKind | CDataKind | UnknownKind | ElementKind

  function Identify(s: string): Kind
    requires s != "" && s[0] == '<'
  {
    if PrefixIgnoringCase("<?xml", s) then DeclarationKind
    else if "<!--" <= s then CommentKind
    else if "<![CDATA[" <= s then CDataKind
    else if "<!" <= s then UnknownKind
    else if |s| > 1 && IsNameStart(s[1]) then ElementKind
    else UnknownKind
  }

  // ---- Leaves ----

  /** The loops that copy characters up to an end tag, without looking at references. */
  function ScanTo(s: string, tag: string): (n: nat)
    ensures n <= |s|
    ensures n < |s| ==> tag <= s[n..]
    ensures forall i | 0 <= i < n :: !(tag <= s[i..])
  {
    if s == "" || tag <= s then 0
    else
      var n := ScanTo(s[1..], tag);
      assert forall i | 0 < i < n + 1 :: s[i..] == s[1..][i - 1..];
      n + 1
  }

  function ParseComment(u: bool, s: string, e: Error): (r: NodeResult)
    ensures r.p.At? ==> |r.p.rest| < |s|
  {
    var p := SkipWhiteSpace(u, At(s));
    if !StringEqual(p, "<!--", false) then NodeResult(Null, Comment(""), SetError(e, ParsingComment))
    else
      var t := p.rest[4..];
      var n := ScanTo(t, "-->");
      NodeResult(Advance(t[n..], 3), Comment(t[..n]), e)
  }

  function ParseUnknown(u: bool, s: string, e: Error): (r: NodeResult)
    ensures r.p.At? ==> |r.p.rest| < |s|
  {
    var p := SkipWhiteSpace(u, At(s));
    if p.Null? || p.rest == "" || p.rest[0] != '<' then NodeResult(Null, Unknown(""), SetError(e, ParsingUnknown))
    else
      var t := p.rest[1..];
      var n := ScanTo(t, ">");
      NodeResult(At(if n < |t| then t[n + 1..] else ""), Unknown(t[..n]), e)
  }

  function ParseCData(s: string, e: Error): (r: NodeResult)
    ensures r.p.At? ==> |r.p.rest| < |s|
  {
    if !StringEqual(At(s), "<![CDATA[", false) then NodeResult(Null, Text("", true), SetError(e, ParsingCData))
    else
      var t := s[9..];
      var n := ScanTo(t, "]]>");
      NodeResult(Advance(t[n..], 3), Text(t[..n], true), e)
  }

  /** Plain text.  The end tag is one character, so stepping over it and back is standing still. */
  function ParseText(u: bool, s: string): (r: TextResult)
    ensures s != "" && !Skips(u, s) && s[0] != '<' && r.stop.At? ==> |r.stop.rest| < |s|
  {
    ReadText(u, At(s), "<", true)
  }

  predicate Blank(value: string) {
    AllWhiteSpace(value)
  }

  // ---- Attributes ----

  /** An unquoted value runs to white space or the end of the tag; a quote in it is an error. */
  function UnquotedLength(s: string): (n: nat)
    ensures n <= |s|
  {
    if s == "" || IsWhiteSpace(s[0]) || s[0] == '/' || s[0] == '>' || s[0] == '\'' || s[0] == '"' then 0
    else 1 + UnquotedLength(s[1..])
  }

  function ParseValue(u: bool, s: string, name: string, e: Error): (r: AttributeResult)
    requires s != ""
    ensures r.p.At? ==> |r.p.rest| <= |s|
  {
    if s[0] == '\'' || s[0] == '"' then
      var t := ReadText(u, At(s[1..]), [s[0]], false);
      AttributeResult(if t.stop.At? then Advance(t.stop.rest, 1) else t.stop, Attribute(name, t.text), e)
    else
      var n := UnquotedLength(s);
      if n < |s| && (s[n] == '\'' || s[n] == '"') then
        AttributeResult(Null, Attribute(name, s[..n]), SetError(e, ReadingAttributes))
      else
        AttributeResult(At(s[n..]), Attribute(name, s[..n]), e)
  }

  function ParseAttribute(u: bool, s: string, e: Error): (r: AttributeResult)
    ensures r.p.At? ==> |r.p.rest| < |s|
  {
    var p := SkipWhiteSpace(u, At(s));
    if p.Null? || p.rest == "" then AttributeResult(Null, Attribute("", ""), e)
    else
      var n := ReadName(p);
      if n.p.Null? || n.p.rest == "" then
        AttributeResult(Null, Attribute(n.name, ""), SetError(e, ReadingAttributes))
      else
        var q := SkipWhiteSpace(u, n.p);
        if q.Null? || q.rest == "" || q.rest[0] != '=' then
          AttributeResult(Null, Attribute(n.name, ""), SetError(e, ReadingAttributes))
        else
          var v := SkipWhiteSpace(u, At(q.rest[1..]));
          if v.Null? || v.rest == "" then
            AttributeResult(Null, Attribute(n.name, ""), SetError(e, ReadingAttributes))
          else ParseValue(u, v.rest, n.name, e)
  }

  // ---- Declaration ----

  /** Anything else in a declaration is read over. */
  function TokenLength(s: string): (n: nat)
    ensures n <= |s|
    ensures s != "" && s[0] != '>' && !IsWhiteSpace(s[0]) ==> n > 0
  {
    if s == "" || s[0] == '>' || IsWhiteSpace(s[0]) then 0 else 1 + TokenLength(s[1..])
  }

  function DeclarationFields(u: bool, p: Ptr, version: string, encoding: string, standalone: string, e: Error)
      : (r: NodeResult)
    ensures p.At? && r.p.At? ==> |r.p.rest| < |p.rest|
    ensures r.node.Declaration?
    decreases if p.At? then |p.rest| else 0
  {
    var node := Declaration(version, encoding, standalone);
    if p.Wild? then NodeResult(Wild, node, e)
    else if p.Null? || p.rest == "" then NodeResult(Null, node, e)
    else if p.rest[0] == '>' then NodeResult(At(p.rest[1..]), node, e)
    else
      var t := DropWhiteSpace(u, p.rest);
      if t == "" then NodeResult(Null, node, e)
      else if PrefixIgnoringCase("version", t) then
        var a := ParseAttribute(u, t, NoError);
        DeclarationFields(u, a.p, a.attribute.value, encoding, standalone, e)
      else if PrefixIgnoringCase("encoding", t) then
        var a := ParseAttribute(u, t, NoError);
        DeclarationFields(u, a.p, version, a.attribute.value, standalone, e)
      else if PrefixIgnoringCase("standalone", t) then
        var a := ParseAttribute(u, t, NoError);
        DeclarationFields(u, a.p, version, encoding, a.attribute.value, e)
      else DeclarationFields(u, At(t[TokenLength(t)..]), version, encoding, standalone, e)
  }

  function ParseDeclaration(u: bool, s: string, e: Error): (r: NodeResult)
    ensures r.p.At? ==> |r.p.rest| < |s|
  {
    var p := SkipWhiteSpace(u, At(s));
    if !StringEqual(p, "<?xml", true) then
      NodeResult(Null, Declaration("", "", ""), SetError(e, ParsingDeclaration))
    else DeclarationFields(u, At(p.rest[5..]), "", "", "", e)
  }

  // ---- Elements ----

  function FindAttribute(attrs: seq<Attribute>, name: string): (i: nat)
    ensures i <= |attrs| && (i < |attrs| ==> attrs[i].name == name)
    ensures forall j | 0 <= j < i :: attrs[j].name != name
  {
    var names := seq(|attrs|, i requires 0 <= i < |attrs| => attrs[i].name);
    assert forall j | 0 <= j < |attrs| :: attrs[j].name == names[j];
    IndexOf(names, name)
  }

  function PtrLength(p: Ptr): nat {
    if p.At? then |p.rest| else 0
  }

  /** The body of the attribute loop once an attribute was read: a second attribute of the same
      name overwrites the first and silently ends the element. */
  function ParseAttributes(u: bool, s: string, name: string, attrs: seq<Attribute>, e: Error): (r: NodeResult)
    ensures r.p.At? && s != "" ==> |r.p.rest| < |s|
    decreases |s|, 1
  {
    var t := DropWhiteSpace(u, s);
    if s == "" then NodeResult(At(""), Element(name, attrs, []), e)
    else if t == "" then NodeResult(Null, Element(name, attrs, []), SetError(e, ReadingAttributes))
    else if t[0] == '/' then
      if |t| > 1 && t[1] == '>' then NodeResult(At(t[2..]), Element(name, attrs, []), e)
      else NodeResult(Null, Element(name, attrs, []), SetError(e, ParsingEmpty))
    else if t[0] == '>' then
      var v := ReadValue(u, At(t[1..]), [], e);
      var node := Element(name, attrs, v.nodes);
      if v.p.Wild? then NodeResult(Wild, node, v.err)
      else if v.p.At? && v.p.rest != "" && EndTag(name) <= v.p.rest then
        NodeResult(At(v.p.rest[|EndTag(name)|..]), node, v.err)
      else NodeResult(Null, node, SetError(v.err, ReadingEndTag))
    else
      var a := ParseAttribute(u, t, e);
      if a.p.Wild? then NodeResult(Wild, Element(name, attrs, []), a.err)
      else if a.p.Null? || a.p.rest == "" then
        NodeResult(Null, Element(name, attrs, []), SetError(a.err, ParsingElement))
      else
        var i := FindAttribute(attrs, a.attribute.name);
        if i < |attrs| then NodeResult(Null, Element(name, attrs[i := a.attribute], []), a.err)
        else ParseAttributes(u, a.p.rest, name, attrs + [a.attribute], a.err)
  }

  function ParseElement(u: bool, s: string, e: Error): (r: NodeResult)
    ensures r.p.At? ==> |r.p.rest| < |s|
    decreases |s|, 2
  {
    var p := SkipWhiteSpace(u, At(s));
    if p.Null? || p.rest == "" || p.rest[0] != '<' then
      NodeResult(Null, Element("", [], []), SetError(e, ParsingElement))
    else
      var n := ReadName(SkipWhiteSpace(u, At(p.rest[1..])));
      if n.p.Null? || n.p.rest == "" then
        NodeResult(Null, Element(n.name, [], []), SetError(e, ElementName))
      else ParseAttributes(u, n.p.rest, n.name, [], e)
  }

  /** node->Parse on the node that Identify made. */
  function ParseNode(u: bool, s: string, e: Error): (r: NodeResult)
    requires s != "" && s[0] == '<'
    ensures r.p.At? ==> |r.p.rest| < |s|
    decreases |s|, 3
  {
    match Identify(s)
    case DeclarationKind => ParseDeclaration(u, s, e)
    case CommentKind => ParseComment(u, s, e)
    case CDataKind => ParseCData(s, e)
    case UnknownKind => ParseUnknown(u, s, e)
    case ElementKind => ParseElement(u, s, e)
  }

  /** TiXmlElement::ReadValue, from the pointer before white space is skipped. */
  function ReadValue(u: bool, q: Ptr, nodes: seq<Node>, e: Error): (r: NodesResult)
    ensures r.p.At? && q.At? ==> |r.p.rest| <= |q.rest|
    decreases PtrLength(q), 4
  {
    match SkipWhiteSpace(u, q)
    case Wild => NodesResult(Wild, nodes, e)
    case Null => NodesResult(Null, nodes, SetError(e, ElementValue))
    case At(t) =>
      if t == "" then NodesResult(At(""), nodes, e)
      else if t[0] != '<' then
        var x := ParseText(u, t);
        ReadValue(u, x.stop, if Blank(x.text) then nodes else nodes + [Text(x.text, false)], e)
      else if "</" <= t then NodesResult(At(t), nodes, e)
      else
        var x := ParseNode(u, t, e);
        ReadValue(u, x.p, nodes + [x.node], x.err)
  }

  // ---- Document ----

  /** Every encoding but UTF-8 is read byte by byte; while it is unknown, the document may tell it. */
  datatype Encoding = UnknownEncoding | Utf8 | Legacy

  /** The encoding attribute of a declaration; none at all means UTF-8. */
  function Named(name: string): Encoding {
    if name == "" || PrefixIgnoringCase("UTF-8", name) || PrefixIgnoringCase("UTF8", name) then Utf8 else Legacy
  }

  /** These spellings start the names that mean UTF-8; and no name at all does. */
  lemma NamesOfUtf8(name: string)
    ensures Named(name).Utf8? <==> name == "" || NamesUtf8(name)
    ensures !Named(name).UnknownEncoding?
  {
  }

  predicate NamesUtf8(name: string) {
    |name| >= 4 && (name[0] == 'u' || name[0] == 'U') && (name[1] == 't' || name[1] == 'T')
    && (name[2] == 'f' || name[2] == 'F')
    && (name[3] == '8' || (|name| >= 5 && name[3] == '-' && name[4] == '8'))
  }

  /** While the encoding is unknown, a declaration settles it. */
  function After(enc: Encoding, n: Node): Encoding {
    if enc.UnknownEncoding? && n.Declaration? then Named(n.encoding) else enc
  }

  const BYTE_ORDER_MARK: string := [0xEF as char, 0xBB as char, 0xBF as char]

  /** So does the byte order mark. */
  function AtStart(enc: Encoding, s: string): Encoding {
    if enc.UnknownEncoding? && BYTE_ORDER_MARK <= s then Utf8 else enc
  }

  function DocumentNodes(enc: Encoding, p: Ptr, nodes: seq<Node>, e: Error): NodesResult
    decreases PtrLength(p)
  {
    if p.At? && p.rest != "" && p.rest[0] == '<' then
      var x := ParseNode(enc.Utf8?, p.rest, e);
      var enc' := After(enc, x.node);
      DocumentNodes(enc', SkipWhiteSpace(enc'.Utf8?, x.p), nodes + [x.node], x.err)
    else NodesResult(p, nodes, e)
  }

  /** TiXmlDocument::Parse. */
  function ParseDocument(enc: Encoding, s: string): NodesResult {
    if s == "" then NodesResult(Null, [], DocumentEmpty)
    else
      var start := AtStart(enc, s);
      var r := DocumentNodes(start, SkipWhiteSpace(start.Utf8?, At(s)), [], NoError);
      if r.nodes == [] then NodesResult(if r.p.Wild? then Wild else Null, [], SetError(r.err, DocumentEmpty)) else r
  }

  // ---- The encoding of each node, told from the nodes before it ----

  function FirstDeclaration(nodes: seq<Node>): (k: nat)
    ensures k <= |nodes| && (k < |nodes| ==> nodes[k].Declaration?)
    ensures forall i | 0 <= i < k :: !nodes[i].Declaration?
  {
    if nodes == [] || nodes[0].Declaration? then 0 else 1 + FirstDeclaration(nodes[1..])
  }

  /** The encoding the parser was given, or else that of the first declaration. */
  function Settled(start: Encoding, nodes: seq<Node>): Encoding {
    var k := FirstDeclaration(nodes);
    if start.UnknownEncoding? && k < |nodes| then Named(nodes[k].encoding) else start
  }

  lemma FirstDeclarationIs(nodes: seq<Node>, k: nat)
    requires k <= |nodes| && (k < |nodes| ==> nodes[k].Declaration?) && forall i | 0 <= i < k :: !nodes[i].Declaration?
    ensures FirstDeclaration(nodes) == k
  {
  }

  /** Once it is settled it stays. */
  lemma SettledStays(start: Encoding, nodes: seq<Node>, more: seq<Node>)
    requires !Settled(start, nodes).UnknownEncoding?
    ensures Settled(start, nodes + more) == Settled(start, nodes)
  {
    if start.UnknownEncoding? { FirstDeclarationIs(nodes + more, FirstDeclaration(nodes)); }
  }

  lemma SettledStep(start: Encoding, nodes: seq<Node>, n: Node)
    ensures After(Settled(start, nodes), n) == Settled(start, nodes + [n])
  {
    var k := FirstDeclaration(nodes);
    if k == |nodes| {
      FirstDeclarationIs(nodes + [n], if n.Declaration? then k else k + 1);
    } else {
      FirstDeclarationIs(nodes + [n], k);
    }
  }

  /** The document with the encoding of every node told from the nodes before it. */
  function DocumentTold(start: Encoding, p: Ptr, nodes: seq<Node>, e: Error): NodesResult
    decreases PtrLength(p)
  {
    if p.At? && p.rest != "" && p.rest[0] == '<' then
      var x := ParseNode(Settled(start, nodes).Utf8?, p.rest, e);
      var all := nodes + [x.node];
      DocumentTold(start, SkipWhiteSpace(Settled(start, all).Utf8?, x.p), all, x.err)
    else NodesResult(p, nodes, e)
  }

  /** Every node of a document is parsed in the encoding given to the parser or told by a byte order mark, or
      else in that of the first declaration among the nodes before it. */
  lemma {:induction false} EncodingIsSettled(start: Encoding, p: Ptr, nodes: seq<Node>, e: Error)
    ensures DocumentNodes(Settled(start, nodes), p, nodes, e) == DocumentTold(start, p, nodes, e)
    decreases PtrLength(p)
  {
    if p.At? && p.rest != "" && p.rest[0] == '<' {
      var x := ParseNode(Settled(start, nodes).Utf8?, p.rest, e);
      var all := nodes + [x.node];
      SettledStep(start, nodes, x.node);
      EncodingIsSettled(start, SkipWhiteSpace(Settled(start, all).Utf8?, x.p), all, x.err);
    }
  }
}
