/** The parser of tinyxmlparser.cpp as it runs: loops that move the pointer and add to the node
    being built, proved to compute the functions of XmlParse. Every method also makes the calls of Stamp
    that XmlMarks lists; `ends` is false where one of them would not end. */
module XmlParser {
  import opened Options
  import opened XmlText
  import opened XmlEncode
  import opened XmlTree
  import opened XmlParse
  import opened XmlPosition
  import opened XmlMarks
  import opened XmlRoundTrip

  // ---- Positions on the way ----

  /** data->Stamp on a pointer, which does nothing for the zero pointer. */
  method StampAt(data: ParsingData, u: bool, p: Ptr) returns (ends: bool)
    modifies data
    ensures data.Moved(old(data.cursor), StartMarks(u, p), ends)
  {
    ends := true;
    if p.At? { ends := data.Stamp(u, |p.rest|); }
  }

  /** SetError */
  method Report(data: ParsingData, u: bool, e: Error, id: Error, p: Ptr) returns (ends: bool, err: Error)
    modifies data
    ensures data.Moved(old(data.cursor), ErrorMarks(u, e, p), ends) && err == SetError(e, id)
  {
    ends, err := true, e;
    if e == NoError {
      err := id;
      ends := StampAt(data, u, p);
    }
  }

  /** After the calls a the calls b are left, unless one of a did not end. */
  lemma Onward(data: ParsingData, before: Cursor, a: seq<Mark>, b: seq<Mark>, ends: bool)
    requires data.Moved(before, a, ends)
    ensures Track(data.text, Some(before), a + b, data.tabsize)
         == if ends then Track(data.text, Some(data.cursor), b, data.tabsize) else None
  {
    TrackJoin(data.text, Some(before), a, b, data.tabsize);
    TrackNone(data.text, b, data.tabsize);
  }

  // ---- Leaves ----

  /** The loop shared by comments, CDATA and unknown tags: copy up to an end tag. */
  method CopyTo(start: string, tag: string) returns (p: string, value: string)
    ensures p == start[ScanTo(start, tag)..] && value == start[..ScanTo(start, tag)]
  {
    p, value := start, "";
    ghost var n := 0;
    while p != "" && !(tag <= p)
      invariant n <= |start| && p == start[n..] && value == start[..n]
      invariant n + ScanTo(p, tag) == ScanTo(start, tag)
      decreases |p|
    {
      OneFurther(start, n);
      value := value + [p[0]];
      p := p[1..];
      n := n + 1;
    }
  }

  lemma OneFurther(s: string, n: nat)
    requires n < |s|
    ensures s[n..][0] == s[n] && s[n..][1..] == s[n + 1..] && s[..n] + [s[n]] == s[..n + 1]
  {
  }

  method ParseCommentNode(data: ParsingData, u: bool, s: string, e: Error) returns (ends: bool, r: NodeResult)
    modifies data
    ensures data.Moved(old(data.cursor), CommentMarks(u, s, e), ends) && (ends ==> r == ParseComment(u, s, e))
  {
    r := NodeResult(Null, Comment(""), e);
    var p := SkipWhiteSpaceLoop(u, At(s));
    ends := StampAt(data, u, p);
    var starts := StringEqualLoop(p, "<!--", false);
    Onward(data, old(data.cursor), StartMarks(u, p), if starts then [] else ErrorMarks(u, e, p), ends);
    if !ends { return; }
    if !starts {
      var err;
      ends, err := Report(data, u, e, ParsingComment, p);
      return ends, NodeResult(Null, Comment(""), err);
    }
    var stop, value := CopyTo(p.rest[4..], "-->");
    r := NodeResult(Advance(stop, 3), Comment(value), e);
  }

  method ParseUnknownNode(data: ParsingData, u: bool, s: string, e: Error) returns (ends: bool, r: NodeResult)
    modifies data
    ensures data.Moved(old(data.cursor), UnknownMarks(u, s, e), ends) && (ends ==> r == ParseUnknown(u, s, e))
  {
    r := NodeResult(Null, Unknown(""), e);
    var p := SkipWhiteSpaceLoop(u, At(s));
    ends := StampAt(data, u, p);
    var starts := !(p.Null? || p.rest == "" || p.rest[0] != '<');
    Onward(data, old(data.cursor), StartMarks(u, p), if starts then [] else ErrorMarks(u, e, p), ends);
    if !ends { return; }
    if !starts {
      var err;
      ends, err := Report(data, u, e, ParsingUnknown, p);
      return ends, NodeResult(Null, Unknown(""), err);
    }
    var stop, value := CopyTo(p.rest[1..], ">");
    r := NodeResult(At(if stop != "" then stop[1..] else ""), Unknown(value), e);
  }

  method ParseCDataNode(data: ParsingData, u: bool, s: string, e: Error) returns (ends: bool, r: NodeResult)
    modifies data
    ensures data.Moved(old(data.cursor), CDataMarks(u, s, e), ends) && (ends ==> r == ParseCData(s, e))
  {
    r := NodeResult(Null, Text("", true), e);
    ends := StampAt(data, u, At(s));
    var starts := StringEqualLoop(At(s), "<![CDATA[", false);
    Onward(data, old(data.cursor), StartMarks(u, At(s)), if starts then [] else ErrorMarks(u, e, At(s)), ends);
    if !ends { return; }
    if !starts {
      var err;
      ends, err := Report(data, u, e, ParsingCData, At(s));
      return ends, NodeResult(Null, Text("", true), err);
    }
    var stop, value := CopyTo(s[9..], "]]>");
    r := NodeResult(Advance(stop, 3), Text(value, true), e);
  }

  // ---- Attributes ----

  method ParseUnquoted(s: string) returns (p: string, value: string)
    ensures p == s[UnquotedLength(s)..] && value == s[..UnquotedLength(s)]
  {
    p, value := s, "";
    ghost var n := 0;
    while p != "" && !IsWhiteSpace(p[0]) && p[0] != '/' && p[0] != '>'
      invariant n <= |s| && p == s[n..] && value == s[..n]
      invariant n + UnquotedLength(p) == UnquotedLength(s)
      decreases |p|
    {
      if p[0] == '\'' || p[0] == '"' { break; }
      OneFurther(s, n);
      value := value + [p[0]];
      p := p[1..];
      n := n + 1;
    }
  }

  /** The value, in either kind of quotes or in none. */
  method ParseValueOf(data: ParsingData, u: bool, s: string, name: string, e: Error, reports: bool)
    returns (ends: bool, r: AttributeResult)
    requires s != ""
    modifies data
    ensures data.Moved(old(data.cursor), if reports then ValueMarks(u, s, e) else [], ends)
    ensures ends ==> r == ParseValue(u, s, name, e)
  {
    ends := true;
    if s[0] == '\'' || s[0] == '"' {
      var t := ReadTextLoop(u, At(s[1..]), [s[0]], false);
      r := AttributeResult(if t.stop.At? then Advance(t.stop.rest, 1) else t.stop, Attribute(name, t.text), e);
    } else {
      var stop, value := ParseUnquoted(s);
      if stop != "" && (stop[0] == '\'' || stop[0] == '"') {
        if reports {
          var err;
          ends, err := Report(data, u, e, ReadingAttributes, At(stop));
        }
        r := AttributeResult(Null, Attribute(name, value), SetError(e, ReadingAttributes));
      } else {
        r := AttributeResult(At(stop), Attribute(name, value), e);
      }
    }
  }

  /** The name and the equals sign: where the value starts, or where the error is. */
  method ReadToValue(u: bool, start: Ptr, ghost e: Error) returns (name: string, p: Ptr, complete: bool)
    requires start.At? && start.rest != "" && !Skips(u, start.rest)
    ensures complete ==>
              && p.At? && p.rest != "" && AttributeErrorMarks(u, start, e) == ValueMarks(u, p.rest, e)
              && ParseAttribute(u, start.rest, e) == ParseValue(u, p.rest, name, e)
    ensures !complete ==>
              && AttributeErrorMarks(u, start, e) == ErrorMarks(u, e, p)
              && ParseAttribute(u, start.rest, e)
                 == AttributeResult(Null, Attribute(name, ""), SetError(e, ReadingAttributes))
  {
    assert SkipWhiteSpace(u, At(start.rest)) == start;
    var n := ReadNameLoop(start);
    name := n.name;
    if n.p.Null? || n.p.rest == "" { return name, start, false; }
    p := SkipWhiteSpaceLoop(u, n.p);
    if p.Null? || p.rest == "" || p.rest[0] != '=' { return name, p, false; }
    p := SkipWhiteSpaceLoop(u, At(p.rest[1..]));
    complete := !(p.Null? || p.rest == "");
  }

  /** An attribute from its name on. */
  method ParseFromName(data: ParsingData, u: bool, start: Ptr, e: Error, reports: bool)
    returns (ends: bool, r: AttributeResult)
    requires start.At? && start.rest != "" && !Skips(u, start.rest)
    modifies data
    ensures data.Moved(old(data.cursor), if reports then AttributeErrorMarks(u, start, e) else [], ends)
    ensures ends ==> r == ParseAttribute(u, start.rest, e)
  {
    ends := true;
    var name, p, complete := ReadToValue(u, start, e);
    r := AttributeResult(Null, Attribute(name, ""), SetError(e, ReadingAttributes));
    if complete {
      ends, r := ParseValueOf(data, u, p.rest, name, e, reports);
    } else if reports {
      var err;
      ends, err := Report(data, u, e, ReadingAttributes, p);
    }
  }

  /** TiXmlAttribute::Parse, with or without a document to report to. */
  method ParseAttributeNode(data: ParsingData, u: bool, s: string, e: Error, reports: bool)
    returns (ends: bool, r: AttributeResult)
    modifies data
    ensures data.Moved(old(data.cursor), AttributeMarks(u, s, e, reports), ends)
    ensures ends ==> r == ParseAttribute(u, s, e)
  {
    r := AttributeResult(Null, Attribute("", ""), e);
    var p := SkipWhiteSpaceLoop(u, At(s));
    if p.Null? || p.rest == "" { return true, r; }
    ends := StampAt(data, u, p);
    Onward(data, old(data.cursor), StartMarks(u, p), if reports then AttributeErrorMarks(u, p, e) else [], ends);
    if ends {
      assert SkipWhiteSpace(u, At(p.rest)) == p;
      ends, r := ParseFromName(data, u, p, e, reports);
    }
  }

  // ---- Declarations ----

  method SkipToken(s: string) returns (p: string)
    ensures p == s[TokenLength(s)..]
  {
    p := s;
    ghost var n := 0;
    while p != "" && p[0] != '>' && !IsWhiteSpace(p[0])
      invariant n <= |s| && p == s[n..] && n + TokenLength(p) == TokenLength(s)
      decreases |p|
    {
      p := p[1..];
      n := n + 1;
    }
  }

  datatype Key = Version | EncodingKey | Standalone | Other

  /** Which field starts here. */
  method KeyAt(p: Ptr) returns (key: Key)
    requires p.At?
    ensures key != Other <==> p.rest != "" && IsField(p.rest)
    ensures key == Version <==> p.rest != "" && PrefixIgnoringCase("version", p.rest)
    ensures key == EncodingKey <==> p.rest != "" && !PrefixIgnoringCase("version", p.rest)
                                    && PrefixIgnoringCase("encoding", p.rest)
  {
    var version := StringEqualLoop(p, "version", true);
    if version { return Version; }
    var encoding := StringEqualLoop(p, "encoding", true);
    if encoding { return EncodingKey; }
    var standalone := StringEqualLoop(p, "standalone", true);
    key := if standalone then Standalone else Other;
  }

  method ParseFields(data: ParsingData, u: bool, start: Ptr, e: Error) returns (ends: bool, r: NodeResult)
    modifies data
    ensures data.Moved(old(data.cursor), FieldMarks(u, start), ends)
    ensures ends ==> r == DeclarationFields(u, start, "", "", "", e)
  {
    ends := true;
    var p, version, encoding, standalone := start, "", "", "";
    while p.At? && p.rest != ""
      invariant DeclarationFields(u, start, "", "", "", e) == DeclarationFields(u, p, version, encoding, standalone, e)
      invariant Track(data.text, Some(old(data.cursor)), FieldMarks(u, start), data.tabsize)
             == Track(data.text, Some(data.cursor), FieldMarks(u, p), data.tabsize)
      decreases if p.At? then |p.rest| + 1 else 0
    {
      if p.rest[0] == '>' {
        return true, NodeResult(At(p.rest[1..]), Declaration(version, encoding, standalone), e);
      }
      p := SkipWhiteSpaceLoop(u, p);
      var key := KeyAt(p);
      if key == Other {
        var stop := SkipToken(p.rest);
        p := At(stop);
      } else {
        ghost var t, before := p.rest, data.cursor;
        var a;
        ends, a := ParseAttributeNode(data, u, p.rest, NoError, false);
        Onward(data, before, AttributeMarks(u, t, NoError, false),
               FieldMarks(u, ParseAttribute(u, t, NoError).p), ends);
        if !ends { return false, NodeResult(Null, Declaration("", "", ""), e); }
        p := a.p;
        match key
        case Version => version := a.attribute.value;
        case EncodingKey => encoding := a.attribute.value;
        case _ => standalone := a.attribute.value;
      }
    }
    r := NodeResult(if p.Wild? then Wild else Null, Declaration(version, encoding, standalone), e);
  }

  method ParseDeclarationNode(data: ParsingData, u: bool, s: string, e: Error) returns (ends: bool, r: NodeResult)
    modifies data
    ensures data.Moved(old(data.cursor), DeclarationMarks(u, s), ends) && (ends ==> r == ParseDeclaration(u, s, e))
  {
    ends := true;
    var p := SkipWhiteSpaceLoop(u, At(s));
    var starts := StringEqualLoop(p, "<?xml", true);
    r := NodeResult(Null, Declaration("", "", ""), SetError(e, ParsingDeclaration));
    if starts {
      ends := StampAt(data, u, p);
      Onward(data, old(data.cursor), StartMarks(u, p), FieldMarks(u, At(p.rest[5..])), ends);
      if ends { ends, r := ParseFields(data, u, At(p.rest[5..]), e); }
    }
  }

  // ---- Elements ----

  /** What follows the attributes: the children and the end tag. */
  method ParseContent(data: ParsingData, u: bool, s: string, name: string, attrs: seq<Attribute>, e: Error)
    returns (ends: bool, r: NodeResult)
    modifies data
    ensures data.Moved(old(data.cursor), ContentMarks(u, s, name, e), ends)
    ensures ends ==> r == ParseAttributes(u, ">" + s, name, attrs, e)
    decreases |s|, 5
  {
    var v;
    r := NodeResult(Null, Element(name, attrs, []), e);
    ends, v := ReadElementValue(data, u, At(s), e);
    ContentTail(data, u, s, name, attrs, e, old(data.cursor), ends);
    if !ends { return; }
    r := NodeResult(Wild, Element(name, attrs, v.nodes), v.err);
    if v.p.Wild? { return; }
    var closes := StringEqualLoop(v.p, EndTag(name), false);
    if closes {
      r := NodeResult(At(v.p.rest[|EndTag(name)|..]), r.node, v.err);
    } else {
      var err;
      ends, err := Report(data, u, v.err, ReadingEndTag, v.p);
      r := NodeResult(Null, r.node, err);
    }
  }

  lemma ContentTail(data: ParsingData, u: bool, s: string, name: string, attrs: seq<Attribute>, e: Error,
                    before: Cursor, ends: bool)
    requires data.Moved(before, ChildMarks(u, At(s), e), ends)
    ensures var v := ReadValue(u, At(s), [], e);
            var tail := if v.p.Wild? || (v.p.At? && v.p.rest != "" && EndTag(name) <= v.p.rest) then []
                        else ErrorMarks(u, v.err, v.p);
            Track(data.text, Some(before), ContentMarks(u, s, name, e), data.tabsize)
            == if ends then Track(data.text, Some(data.cursor), tail, data.tabsize) else None
    ensures DropWhiteSpace(u, ">" + s) == ">" + s && (">" + s)[1..] == s
  {
    var v := ReadValue(u, At(s), [], e);
    Onward(data, before, ChildMarks(u, At(s), e),
           if v.p.Wild? || (v.p.At? && v.p.rest != "" && EndTag(name) <= v.p.rest) then []
           else ErrorMarks(u, v.err, v.p), ends);
    assert (">" + s)[0] == '>';
  }

  /** The loop over the attributes. */
  method ParseAttributeList(data: ParsingData, u: bool, start: string, name: string, e: Error)
    returns (ends: bool, r: NodeResult)
    modifies data
    ensures data.Moved(old(data.cursor), AttributesMarks(u, start, name, [], e), ends)
    ensures ends ==> r == ParseAttributes(u, start, name, [], e)
    decreases |start|, 1
  {
    ends := true;
    var q, attrs, err := start, [], e;
    while q != ""
      invariant |q| <= |start| && ParseAttributes(u, start, name, [], e) == ParseAttributes(u, q, name, attrs, err)
      invariant Track(data.text, Some(old(data.cursor)), AttributesMarks(u, start, name, [], e), data.tabsize)
             == Track(data.text, Some(data.cursor), AttributesMarks(u, q, name, attrs, err), data.tabsize)
      decreases |q|
    {
      r := NodeResult(Null, Element(name, attrs, []), err);
      var p := SkipWhiteSpaceLoop(u, At(q));
      if p.rest == "" {
        var id;
        ends, id := Report(data, u, err, ReadingAttributes, At(q));
        return ends, NodeResult(Null, Element(name, attrs, []), id);
      }
      if p.rest[0] == '/' {
        if |p.rest| == 1 || p.rest[1] != '>' {
          var id;
          ends, id := Report(data, u, err, ParsingEmpty, At(p.rest[1..]));
          return ends, NodeResult(Null, Element(name, attrs, []), id);
        }
        return true, NodeResult(At(p.rest[2..]), Element(name, attrs, []), err);
      } else if p.rest[0] == '>' {
        ends, r := ParseContent(data, u, p.rest[1..], name, attrs, err);
        assert ">" + p.rest[1..] == p.rest && DropWhiteSpace(u, p.rest) == p.rest;
        return;
      }
      var a;
      ghost var before := data.cursor;
      ends, a := ParseAttributeNode(data, u, p.rest, err, true);
      AttributeTail(data, u, q, p.rest, name, attrs, err, before, ends);
      if !ends { return; }
      if a.p.Wild? { return true, NodeResult(Wild, Element(name, attrs, []), a.err); }
      if a.p.Null? || a.p.rest == "" {
        var id;
        ends, id := Report(data, u, a.err, ParsingElement, p);
        return ends, NodeResult(Null, Element(name, attrs, []), id);
      }
      var i := FindAttribute(attrs, a.attribute.name);
      if i < |attrs| { return true, NodeResult(Null, Element(name, attrs[i := a.attribute], []), a.err); }
      q, attrs, err := a.p.rest, attrs + [a.attribute], a.err;
    }
    r := NodeResult(At(""), Element(name, attrs, []), err);
  }

  /** The calls behind an attribute of the list. */
  lemma AttributeTail(data: ParsingData, u: bool, q: string, t: string, name: string, attrs: seq<Attribute>, e: Error,
                      before: Cursor, ends: bool)
    requires q != "" && t == DropWhiteSpace(u, q) && t != "" && t[0] != '/' && t[0] != '>'
    requires data.Moved(before, AttributeMarks(u, t, e, true), ends)
    ensures var a := ParseAttribute(u, t, e);
            var tail := if a.p.Wild? then [] else if a.p.Null? || a.p.rest == "" then ErrorMarks(u, a.err, At(t))
                        else if FindAttribute(attrs, a.attribute.name) < |attrs| then []
                        else AttributesMarks(u, a.p.rest, name, attrs + [a.attribute], a.err);
            Track(data.text, Some(before), AttributesMarks(u, q, name, attrs, e), data.tabsize)
            == if ends then Track(data.text, Some(data.cursor), tail, data.tabsize) else None
  {
    var a := ParseAttribute(u, t, e);
    Onward(data, before, AttributeMarks(u, t, e, true),
           if a.p.Wild? then [] else if a.p.Null? || a.p.rest == "" then ErrorMarks(u, a.err, At(t))
           else if FindAttribute(attrs, a.attribute.name) < |attrs| then []
           else AttributesMarks(u, a.p.rest, name, attrs + [a.attribute], a.err), ends);
  }

  /** TiXmlElement::Parse. */
  method ParseElementNode(data: ParsingData, u: bool, s: string, e: Error) returns (ends: bool, r: NodeResult)
    modifies data
    ensures data.Moved(old(data.cursor), ElementMarks(u, s, e), ends) && (ends ==> r == ParseElement(u, s, e))
    decreases |s|, 2
  {
    var p := SkipWhiteSpaceLoop(u, At(s));
    r := NodeResult(Null, Element("", [], []), SetError(e, ParsingElement));
    if p.Null? || p.rest == "" { return true, r; }
    ends := StampAt(data, u, p);
    Onward(data, old(data.cursor), StartMarks(u, p), TagMarks(u, p.rest, e), ends);
    if !ends { return; }
    var err;
    if p.rest[0] != '<' {
      ends, err := Report(data, u, e, ParsingElement, p);
      return;
    }
    var q := SkipWhiteSpaceLoop(u, At(p.rest[1..]));
    var n := ReadNameLoop(q);
    if n.p.Null? || n.p.rest == "" {
      ends, err := Report(data, u, e, ElementName, q);
      return ends, NodeResult(Null, Element(n.name, [], []), err);
    }
    ends, r := ParseAttributeList(data, u, n.p.rest, n.name, e);
  }

  method ParseAnyNode(data: ParsingData, u: bool, s: string, e: Error) returns (ends: bool, r: NodeResult)
    requires s != "" && s[0] == '<'
    modifies data
    ensures data.Moved(old(data.cursor), NodeMarks(u, s, e), ends) && (ends ==> r == ParseNode(u, s, e))
    decreases |s|, 3
  {
    match Identify(s)
    case DeclarationKind => ends, r := ParseDeclarationNode(data, u, s, e);
    case CommentKind => ends, r := ParseCommentNode(data, u, s, e);
    case CDataKind => ends, r := ParseCDataNode(data, u, s, e);
    case UnknownKind => ends, r := ParseUnknownNode(data, u, s, e);
    case ElementKind => ends, r := ParseElementNode(data, u, s, e);
  }

  /** TiXmlElement::ReadValue: text, elements and the rest in any order, up to an end tag. */
  method ReadElementValue(data: ParsingData, u: bool, start: Ptr, e: Error) returns (ends: bool, r: NodesResult)
    modifies data
    ensures data.Moved(old(data.cursor), ChildMarks(u, start, e), ends)
    ensures ends ==> r == ReadValue(u, start, [], e)
    decreases PtrLength(start), 4
  {
    ends := true;
    var nodes, err := [], e;
    var q := start;
    var p := SkipWhiteSpaceLoop(u, q);
    while p.At? && p.rest != ""
      invariant p == SkipWhiteSpace(u, q) && PtrLength(q) <= PtrLength(start)
      invariant ReadValue(u, start, [], e) == ReadValue(u, q, nodes, err)
      invariant Track(data.text, Some(old(data.cursor)), ChildMarks(u, start, e), data.tabsize)
             == Track(data.text, Some(data.cursor), ChildMarks(u, q, err), data.tabsize)
      decreases if p.At? then |p.rest| + 1 else 0
    {
      ghost var before := data.cursor;
      if p.rest[0] != '<' {
        ends := StampAt(data, u, p);
        Onward(data, before, StartMarks(u, p), ChildMarks(u, ParseText(u, p.rest).stop, err), ends);
        if !ends { return false, NodesResult(Null, nodes, err); }
        var x := ReadTextLoop(u, p, "<", true);
        q := x.stop;
        if !Blank(x.text) { nodes := nodes + [Text(x.text, false)]; }
      } else {
        var closes := StringEqualLoop(p, "</", false);
        if closes { return true, NodesResult(p, nodes, err); }
        var x;
        ends, x := ParseAnyNode(data, u, p.rest, err);
        ghost var y := ParseNode(u, p.rest, err);
        Onward(data, before, NodeMarks(u, p.rest, err), ChildMarks(u, y.p, y.err), ends);
        if !ends { return false, NodesResult(Null, nodes, err); }
        q, nodes, err := x.p, nodes + [x.node], x.err;
      }
      p := SkipWhiteSpaceLoop(u, q);
    }
    r := NodesResult(p, nodes, if p.Null? then SetError(err, ElementValue) else err);
  }

  // ---- Documents ----

  /** What a declaration says about the encoding, asked while it is unknown. */
  method Detect(enc: Encoding, n: Node) returns (r: Encoding)
    ensures r == After(enc, n)
  {
    if !enc.UnknownEncoding? || !n.Declaration? { return enc; }
    if n.encoding == "" { return Utf8; }
    var name := StringEqualLoop(At(n.encoding), "UTF-8", true);
    var nick := StringEqualLoop(At(n.encoding), "UTF8", true);
    r := if name || nick then Utf8 else Legacy;
  }

  /** The loop of TiXmlDocument::Parse. */
  method ParseNodes(data: ParsingData, start: Encoding, s: string) returns (ends: bool, r: NodesResult)
    modifies data
    ensures var first := SkipWhiteSpace(start.Utf8?, At(s));
            data.Moved(old(data.cursor), DocumentMarks(start, first, NoError), ends)
            && (ends ==> r == DocumentNodes(start, first, [], NoError))
  {
    ends := true;
    var encoding, nodes, err := start, [], NoError;
    var p := SkipWhiteSpaceLoop(start.Utf8?, At(s));
    ghost var first := p;
    while p.At? && p.rest != ""
      invariant DocumentNodes(start, first, [], NoError) == DocumentNodes(encoding, p, nodes, err)
      invariant Track(data.text, Some(old(data.cursor)), DocumentMarks(start, first, NoError), data.tabsize)
             == Track(data.text, Some(data.cursor), DocumentMarks(encoding, p, err), data.tabsize)
      decreases if p.At? then |p.rest| + 1 else 0
    {
      if p.rest[0] != '<' { break; }
      ghost var before := data.cursor;
      ghost var y := ParseNode(encoding.Utf8?, p.rest, err);
      ghost var enc := After(encoding, y.node);
      var x;
      ends, x := ParseAnyNode(data, encoding.Utf8?, p.rest, err);
      Onward(data, before, NodeMarks(encoding.Utf8?, p.rest, err),
             DocumentMarks(enc, SkipWhiteSpace(enc.Utf8?, y.p), y.err), ends);
      if !ends { return false, NodesResult(Null, nodes, err); }
      nodes, err := nodes + [x.node], x.err;
      encoding := Detect(encoding, x.node);
      p := SkipWhiteSpaceLoop(encoding.Utf8?, x.p);
    }
    r := NodesResult(p, nodes, err);
  }

  /** TiXmlDocument::Parse; row and column are those of an earlier parse, and otherwise zero. */
  method Parse(enc: Encoding, s: string, tab: int, row: int, col: int) returns (ends: bool, r: NodesResult)
    ensures ends <==> Ends(enc, s, Cursor(row, col, 0), tab)
    ensures ends ==> r == ParseDocument(enc, s)
  {
    r := NodesResult(Null, [], DocumentEmpty);
    if s == "" { return true, r; }
    var data := new ParsingData(s, tab, row, col);
    ends, r := ParseNodes(data, AtStart(enc, s), s);
    if ends && r.nodes == [] {
      r := NodesResult(if r.p.Wild? then Wild else Null, [], SetError(r.err, DocumentEmpty));
    }
  }

  /** The streaming printer followed by the parser, on a well-formed document. */
  method PrintAndParse(enc: Encoding, nodes: seq<Node>, tab: int) returns (ends: bool, r: NodesResult)
    requires WellFormedDocument(enc, nodes)
    ensures ends && r.nodes == nodes && r.err == NoError
  {
    var text := StreamPrint(nodes);
    DocumentRoundTrip(enc, nodes, STREAM);
    DocumentEnds(enc, nodes, STREAM, Cursor(0, 0, 0), tab);
    ends, r := Parse(enc, text, tab, 0, 0);
  }
}
