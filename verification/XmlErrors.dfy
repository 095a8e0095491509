/** Malformed input: which error the parser reports, and where it reports none. */
module XmlErrors {
  import opened XmlText
  import opened XmlEntity
  import opened XmlEncode
  import opened XmlTree
  import opened XmlParse
  import opened XmlMarks
  import opened XmlRoundTrip

  // ---- The first error stays ----

  function First(e: Error, later: Error): Error {
    if e == NoError then later else e
  }

  lemma ValueError(u: bool, s: string, name: string, e: Error)
    requires s != ""
    ensures var (r, plain) := (ParseValue(u, s, name, e), ParseValue(u, s, name, NoError));
            r == plain.(err := First(e, plain.err))
  {
  }

  lemma AttributeError(u: bool, s: string, e: Error)
    ensures var (r, plain) := (ParseAttribute(u, s, e), ParseAttribute(u, s, NoError));
            r == plain.(err := First(e, plain.err))
  {
    var p := SkipWhiteSpace(u, At(s));
    if p.At? && p.rest != "" {
      var n := ReadName(p);
      if n.p.At? {
        var q := SkipWhiteSpace(u, n.p);
        if q.At? && q.rest != "" && q.rest[0] == '=' {
          var v := SkipWhiteSpace(u, At(q.rest[1..]));
          if v.At? && v.rest != "" { ValueError(u, v.rest, n.name, e); }
        }
      }
    }
  }

  /** What the loop over the fields of a declaration makes of what comes next. */
  lemma OneField(u: bool, s: string, t: string, version: string, encoding: string, standalone: string, e: Error)
      returns (next: Ptr, v: string, c: string, a: string)
    requires s != "" && s[0] != '>' && t == DropWhiteSpace(u, s) && t != ""
    ensures DeclarationFields(u, At(s), version, encoding, standalone, e) == DeclarationFields(u, next, v, c, a, e)
    ensures DeclarationFields(u, At(s), version, encoding, standalone, NoError)
         == DeclarationFields(u, next, v, c, a, NoError)
    ensures PtrLength(next) < |s|
  {
    var field := ParseAttribute(u, t, NoError);
    next, v, c, a := field.p, version, encoding, standalone;
    if PrefixIgnoringCase("version", t) {
      v := field.attribute.value;
    } else if PrefixIgnoringCase("encoding", t) {
      c := field.attribute.value;
    } else if PrefixIgnoringCase("standalone", t) {
      a := field.attribute.value;
    } else {
      next := At(t[TokenLength(t)..]);
    }
  }

  lemma {:induction false} FieldsError(u: bool, p: Ptr, version: string, encoding: string, standalone: string, e: Error)
    ensures var plain := DeclarationFields(u, p, version, encoding, standalone, NoError);
            DeclarationFields(u, p, version, encoding, standalone, e) == plain.(err := First(e, plain.err))
    decreases PtrLength(p)
  {
    if p.At? && p.rest != "" && p.rest[0] != '>' && DropWhiteSpace(u, p.rest) != "" {
      var next, v, c, a := OneField(u, p.rest, DropWhiteSpace(u, p.rest), version, encoding, standalone, e);
      FieldsError(u, next, v, c, a, e);
    }
  }

  /** What the attribute loop makes of one more attribute: it goes on behind it, or ends. */
  lemma OneAttribute(u: bool, s: string, t: string, name: string, attrs: seq<Attribute>, e: Error)
      returns (goesOn: bool, rest: string, all: seq<Attribute>, err: Error, plain: Error)
    requires s != "" && t == DropWhiteSpace(u, s) && t != "" && t[0] != '/' && t[0] != '>'
    ensures err == First(e, plain) && (goesOn ==> |rest| < |s|)
    ensures goesOn ==> ParseAttributes(u, s, name, attrs, e) == ParseAttributes(u, rest, name, all, err)
    ensures goesOn ==> ParseAttributes(u, s, name, attrs, NoError) == ParseAttributes(u, rest, name, all, plain)
    ensures !goesOn ==>
              (var r := ParseAttributes(u, s, name, attrs, NoError);
               ParseAttributes(u, s, name, attrs, e) == r.(err := First(e, r.err)))
  {
    AttributeError(u, t, e);
    var a, b := ParseAttribute(u, t, e), ParseAttribute(u, t, NoError);
    err, plain, rest, all := a.err, b.err, if a.p.At? then a.p.rest else "", attrs + [a.attribute];
    goesOn := a.p.At? && a.p.rest != "" && FindAttribute(attrs, a.attribute.name) == |attrs|;
  }

  /** What it makes of the end of the start tag, and of the content behind it. */
  lemma OneContent(u: bool, s: string, t: string, name: string, attrs: seq<Attribute>, v: NodesResult, plain: NodesResult,
                   e: Error)
    requires s != "" && t == DropWhiteSpace(u, s) && t != "" && t[0] == '>'
    requires v == ReadValue(u, At(t[1..]), [], e) && plain == ReadValue(u, At(t[1..]), [], NoError)
    requires v == plain.(err := First(e, plain.err))
    ensures var (r, r0) := (ParseAttributes(u, s, name, attrs, e), ParseAttributes(u, s, name, attrs, NoError));
            r == r0.(err := First(e, r0.err))
  {
  }

  lemma {:induction false} AttributesError(u: bool, s: string, name: string, attrs: seq<Attribute>, e: Error)
    ensures var (r, plain) := (ParseAttributes(u, s, name, attrs, e), ParseAttributes(u, s, name, attrs, NoError));
            r == plain.(err := First(e, plain.err))
    decreases |s|, 1
  {
    var t := DropWhiteSpace(u, s);
    if s == "" || t == "" || t[0] == '/' {
    } else if t[0] == '>' {
      ValueErrors(u, At(t[1..]), [], e);
      OneContent(u, s, t, name, attrs, ReadValue(u, At(t[1..]), [], e), ReadValue(u, At(t[1..]), [], NoError), e);
    } else {
      var goesOn, rest, all, err, plain := OneAttribute(u, s, t, name, attrs, e);
      if goesOn {
        AttributesError(u, rest, name, all, err);
        AttributesError(u, rest, name, all, plain);
      }
    }
  }

  lemma DeclarationError(u: bool, s: string, e: Error)
    ensures var (r, plain) := (ParseDeclaration(u, s, e), ParseDeclaration(u, s, NoError));
            r == plain.(err := First(e, plain.err))
  {
    var p := SkipWhiteSpace(u, At(s));
    if StringEqual(p, "<?xml", true) { FieldsError(u, At(p.rest[5..]), "", "", "", e); }
  }

  lemma {:induction false} ElementError(u: bool, s: string, e: Error)
    ensures var (r, plain) := (ParseElement(u, s, e), ParseElement(u, s, NoError)); r == plain.(err := First(e, plain.err))
    decreases |s|, 2
  {
    var p := SkipWhiteSpace(u, At(s));
    if p.At? && p.rest != "" && p.rest[0] == '<' {
      var n := ReadName(SkipWhiteSpace(u, At(p.rest[1..])));
      if n.p.At? { AttributesError(u, n.p.rest, n.name, [], e); }
    }
  }

  lemma LeafError(u: bool, s: string, e: Error)
    ensures var (r, plain) := (ParseComment(u, s, e), ParseComment(u, s, NoError)); r == plain.(err := First(e, plain.err))
    ensures var (r, plain) := (ParseUnknown(u, s, e), ParseUnknown(u, s, NoError)); r == plain.(err := First(e, plain.err))
    ensures var (r, plain) := (ParseCData(s, e), ParseCData(s, NoError)); r == plain.(err := First(e, plain.err))
  {
  }

  lemma {:induction false} NodeError(u: bool, s: string, e: Error)
    requires s != "" && s[0] == '<'
    ensures var (r, plain) := (ParseNode(u, s, e), ParseNode(u, s, NoError)); r == plain.(err := First(e, plain.err))
    decreases |s|, 3
  {
    match Identify(s)
    case DeclarationKind => DeclarationError(u, s, e);
    case ElementKind => ElementError(u, s, e);
    case _ => LeafError(u, s, e);
  }

  /** What the loop over the content of an element makes of the next text or node. */
  lemma OneChild(u: bool, q: Ptr, t: string, nodes: seq<Node>, e: Error)
      returns (next: Ptr, all: seq<Node>, err: Error, plain: Error)
    requires SkipWhiteSpace(u, q) == At(t) && t != "" && !("</" <= t)
    requires t[0] == '<' ==>
               (var r := ParseNode(u, t, NoError); ParseNode(u, t, e) == r.(err := First(e, r.err)))
    ensures err == First(e, plain) && PtrLength(next) < PtrLength(q)
    ensures ReadValue(u, q, nodes, e) == ReadValue(u, next, all, err)
    ensures ReadValue(u, q, nodes, NoError) == ReadValue(u, next, all, plain)
  {
    if t[0] != '<' {
      var x := ParseText(u, t);
      next, all, err, plain := x.stop, if Blank(x.text) then nodes else nodes + [Text(x.text, false)], e, NoError;
    } else {
      var x := ParseNode(u, t, e);
      next, all, err, plain := x.p, nodes + [x.node], x.err, ParseNode(u, t, NoError).err;
    }
  }

  lemma {:induction false} ValueErrors(u: bool, q: Ptr, nodes: seq<Node>, e: Error)
    ensures var (r, plain) := (ReadValue(u, q, nodes, e), ReadValue(u, q, nodes, NoError));
            r == plain.(err := First(e, plain.err))
    decreases PtrLength(q), 4
  {
    var p := SkipWhiteSpace(u, q);
    if p.At? && p.rest != "" && !("</" <= p.rest) {
      if p.rest[0] == '<' { NodeError(u, p.rest, e); }
      var next, all, err, plain := OneChild(u, q, p.rest, nodes, e);
      ValueErrors(u, next, all, err);
      ValueErrors(u, next, all, plain);
      FirstOfThree(ReadValue(u, next, all, NoError), ReadValue(u, q, nodes, e), ReadValue(u, q, nodes, NoError),
                   e, err, plain);
    }
  }

  lemma FirstOfThree(last: NodesResult, r: NodesResult, plain: NodesResult, e: Error, err: Error, before: Error)
    requires err == First(e, before)
    requires r == last.(err := First(err, last.err)) && plain == last.(err := First(before, last.err))
    ensures r == plain.(err := First(e, plain.err))
  {
  }

  /** An error reported before a node does not change what is read, and is the one that is kept. */
  lemma ErrorStays(enc: Encoding, p: Ptr, nodes: seq<Node>, e: Error)
    ensures var (r, plain) := (DocumentNodes(enc, p, nodes, e), DocumentNodes(enc, p, nodes, NoError));
            r == plain.(err := First(e, plain.err))
    decreases PtrLength(p)
  {
    if p.At? && p.rest != "" && p.rest[0] == '<' {
      NodeError(enc.Utf8?, p.rest, e);
      var x, plain := ParseNode(enc.Utf8?, p.rest, e), ParseNode(enc.Utf8?, p.rest, NoError);
      var enc' := After(enc, x.node);
      var next := SkipWhiteSpace(enc'.Utf8?, x.p);
      ErrorStays(enc', next, nodes + [x.node], x.err);
      ErrorStays(enc', next, nodes + [x.node], plain.err);
    }
  }

  // ---- Failing without an error ----

  /** Behind the attributes read so far comes one with the name of one of them. */
  predicate RepeatsName(u: bool, s: string, attrs: seq<Attribute>)
    decreases |s|
  {
    var t := DropWhiteSpace(u, s);
    s != "" && t != "" && t[0] != '/' && t[0] != '>' &&
    var a := ParseAttribute(u, t, NoError);
    a.p.At? && a.p.rest != "" &&
    ((exists b <- attrs :: b.name == a.attribute.name) || RepeatsName(u, a.p.rest, attrs + [a.attribute]))
  }

  lemma FindsName(attrs: seq<Attribute>, name: string)
    ensures FindAttribute(attrs, name) < |attrs| <==> exists b <- attrs :: b.name == name
  {
    if b :| b in attrs && b.name == name {
      var i :| 0 <= i < |attrs| && attrs[i] == b;
    }
  }

  /** The text of an element is never given up without an error. */
  lemma {:induction false} ValueFailsLoudly(u: bool, q: Ptr, nodes: seq<Node>, e: Error)
    requires ReadValue(u, q, nodes, e).p.Null?
    ensures ReadValue(u, q, nodes, e).err != NoError
    decreases PtrLength(q)
  {
    var p := SkipWhiteSpace(u, q);
    if p.At? {
      var t := p.rest;
      if t[0] != '<' {
        var x := ParseText(u, t);
        ValueFailsLoudly(u, x.stop, if Blank(x.text) then nodes else nodes + [Text(x.text, false)], e);
      } else {
        var x := ParseNode(u, t, e);
        ValueFailsLoudly(u, x.p, nodes + [x.node], x.err);
      }
    }
  }

  /** An element is given up without an error exactly at the second attribute of a name. */
  lemma {:induction false} SilentExactlyOnRepeats(u: bool, s: string, name: string, attrs: seq<Attribute>)
    ensures var r := ParseAttributes(u, s, name, attrs, NoError);
            r.p.Null? && r.err == NoError <==> RepeatsName(u, s, attrs)
    decreases |s|
  {
    var t := DropWhiteSpace(u, s);
    if s != "" && t != "" && t[0] != '/' && t[0] != '>' {
      var a := ParseAttribute(u, t, NoError);
      if a.p.At? && a.p.rest != "" {
        FindsName(attrs, a.attribute.name);
        AttributeSilent(u, t);
        if FindAttribute(attrs, a.attribute.name) == |attrs| {
          SilentExactlyOnRepeats(u, a.p.rest, name, attrs + [a.attribute]);
        }
      }
    } else if s != "" && t != "" && t[0] == '>' {
      var v := ReadValue(u, At(t[1..]), [], NoError);
    }
  }

  /** An attribute that is read reports no error. */
  lemma AttributeSilent(u: bool, s: string)
    ensures ParseAttribute(u, s, NoError).p.At? ==> ParseAttribute(u, s, NoError).err == NoError
  {
  }

  /** At the top level nothing behind such an element is read, and no error is reported. */
  lemma RepeatDropsTheRest(enc: Encoding, s: string, name: string, after: string, nodes: seq<Node>)
    requires ReadableName(enc.Utf8?, name) && after != "" && (after[0] == ' ' || after[0] == '>')
    requires s == "<" + (name + after) && RepeatsName(enc.Utf8?, after, [])
    ensures var r := DocumentNodes(enc, At(s), nodes, NoError);
            r.p.Null? && r.err == NoError && |r.nodes| == |nodes| + 1 && r.nodes[..|nodes|] == nodes
  {
    XmlRoundTrip.ElementName(enc.Utf8?, s, name, name + after, after, NoError);
    SilentExactlyOnRepeats(enc.Utf8?, after, name, []);
    var x := ParseAttributes(enc.Utf8?, after, name, [], NoError);
    assert DocumentNodes(enc, At(s), nodes, NoError)
        == DocumentNodes(After(enc, x.node), SkipWhiteSpace(After(enc, x.node).Utf8?, x.p), nodes + [x.node], x.err);
  }

  // ---- End tags ----

  /** Behind its children an element has to find its own end tag: another one is an error, and so is none. */
  lemma WrongEndTag(u: bool, n: Node, depth: nat, f: Format, s: string, inside: string, y: string, e: Error)
    requires n.Element? && n.children != [] && WellFormed(u, n) && Layout(f)
    requires "</" <= y && !("</" + n.name + ">" <= y)
    requires inside == if SimpleText(n.children) then Encode(n.children[0].value) + y
                       else f.lineBreak + (PrintNodes(n.children, depth + 1, f) + (Indent(depth, f) + y))
    requires s == "<" + (n.name + (PrintAttributes(Visible(n.attributes)) + (">" + inside)))
    ensures s[0] == '<' && ParseNode(u, s, e) == NodeResult(Null, n, First(e, ReadingEndTag))
  {
    NameIsAll(n.name);
    ElementHead(u, n, s, ">" + inside, e);
    ChildrenRoundTrip(u, n, depth, f, inside, y, e);
    OtherEndTag(u, n, ">" + inside, inside, y, e);
  }

  lemma OtherEndTag(u: bool, n: Node, s: string, inside: string, y: string, e: Error)
    requires n.Element? && s == ">" + inside && y != "" && !(EndTag(n.name) <= y)
    requires ReadValue(u, At(inside), [], e) == NodesResult(At(y), n.children, e)
    ensures ParseAttributes(u, s, n.name, n.attributes, e) == NodeResult(Null, n, First(e, ReadingEndTag))
  {
    assert s[1..] == inside && DropWhiteSpace(u, s) == s;
  }

  /** The text ends behind the start tag, or behind white space after it. */
  lemma NoEndTag(u: bool, n: Node, s: string, w: string, e: Error)
    requires n.Element? && n.children == [] && WellFormed(u, n) && AllWhiteSpace(w)
    requires s == "<" + (n.name + (PrintAttributes(Visible(n.attributes)) + (">" + w)))
    ensures s[0] == '<' && ParseNode(u, s, e)
         == NodeResult(Null, n, First(e, if w == "" then ElementValue else ReadingEndTag))
  {
    ElementHead(u, n, s, ">" + w, e);
    NoContent(u, ">" + w, w, n.name, n.attributes, e);
  }

  lemma ValueOfSpace(u: bool, w: string, e: Error)
    requires AllWhiteSpace(w)
    ensures ReadValue(u, At(w), [], e)
         == if w == "" then NodesResult(Null, [], First(e, ElementValue)) else NodesResult(At(""), [], e)
  {
    assert w + "" == w;
    DropWhiteSpaceConcat(u, w, "");
  }

  lemma ContentEnds(u: bool, s: string, inside: string, name: string, attrs: seq<Attribute>, v: NodesResult, e: Error)
    requires s == ">" + inside && v == ReadValue(u, At(inside), [], e) && (v.p.Null? || v.p == At(""))
    ensures ParseAttributes(u, s, name, attrs, e)
         == NodeResult(Null, Element(name, attrs, v.nodes), SetError(v.err, ReadingEndTag))
  {
    assert s[1..] == inside && DropWhiteSpace(u, s) == s;
  }

  lemma NoContent(u: bool, s: string, w: string, name: string, attrs: seq<Attribute>, e: Error)
    requires s == ">" + w && AllWhiteSpace(w)
    ensures ParseAttributes(u, s, name, attrs, e)
         == NodeResult(Null, Element(name, attrs, []), First(e, if w == "" then ElementValue else ReadingEndTag))
  {
    ValueOfSpace(u, w, e);
    ContentEnds(u, s, w, name, attrs, ReadValue(u, At(w), [], e), e);
  }

  /** A start tag in which the text ends behind an attribute, or before the bracket of an empty tag. */
  lemma BrokenTag(u: bool, n: Node, s: string, tail: string, e: Error)
    requires n.Element? && n.children == [] && WellFormed(u, n) && tail != "" && tail[0] == ' '
    requires s == "<" + (n.name + (PrintAttributes(Visible(n.attributes)) + tail))
    ensures s[0] == '<'
    ensures AllWhiteSpace(tail) ==> ParseNode(u, s, e) == NodeResult(Null, n, First(e, ReadingAttributes))
    ensures |tail| > 1 && tail[1] == '/' && (|tail| > 2 ==> tail[2] != '>') ==>
              ParseNode(u, s, e) == NodeResult(Null, n, First(e, ParsingEmpty))
  {
    ElementHead(u, n, s, tail, e);
    if AllWhiteSpace(tail) {
      assert tail + "" == tail;
      DropWhiteSpaceConcat(u, tail, "");
    } else if |tail| > 1 && tail[1] == '/' {
      assert DropWhiteSpace(u, tail) == tail[1..];
    }
  }

  /** The text ends within or behind the name of an element. */
  lemma NameAtTheEnd(u: bool, name: string, s: string, e: Error)
    requires ReadableName(u, name) && s == "<" + name
    ensures s[0] == '<' && ParseNode(u, s, e) == NodeResult(Null, Element(name, [], []), First(e, ElementName))
  {
    assert name + "" == name;
    NameNotSkipped(u, name, "");
    assert s[0] == '<' && s[1..] == name && s[1] == name[0];
    KindByPrefix(s);
    assert SkipWhiteSpace(u, At(s)) == At(s) && SkipWhiteSpace(u, At(name)) == At(name);
    ReadNameConcat(name, "");
  }

  /** The text ends right behind an attribute. */
  lemma AttributeAtTheEnd(u: bool, n: Node, a: Attribute, s: string, e: Error)
    requires n.Element? && n.children == [] && WellFormed(u, n) && PlainAttribute(u, a)
    requires s == "<" + (n.name + (PrintAttributes(Visible(n.attributes)) + (" " + PrintAttribute(a))))
    ensures s[0] == '<' && ParseNode(u, s, e) == NodeResult(Null, n, First(e, ParsingElement))
  {
    var tail, t := " " + PrintAttribute(a), PrintAttribute(a);
    ElementHead(u, n, s, tail, e);
    assert t + "" == t;
    AttributeRoundTrip(u, a, t, "", e);
    assert tail[0] == ' ' && tail[1..] == t && DropWhiteSpace(u, tail) == DropWhiteSpace(u, t) == t;
  }

  // ---- Declarations ----

  /** What starts a declaration, in either case of each letter. */
  predicate StartsDeclaration(s: string) {
    |s| >= 5 && s[0] == '<' && s[1] == '?' && (s[2] == 'x' || s[2] == 'X') && (s[3] == 'm' || s[3] == 'M')
    && (s[4] == 'l' || s[4] == 'L')
  }

  /** It is read as one exactly then, from behind these five characters on. */
  lemma DeclarationInAnyCase(u: bool, s: string, e: Error)
    requires s != "" && s[0] == '<'
    ensures Identify(s) == DeclarationKind <==> StartsDeclaration(s)
    ensures StartsDeclaration(s) ==> ParseNode(u, s, e) == DeclarationFields(u, At(s[5..]), "", "", "", e)
  {
    assert SkipWhiteSpace(u, At(s)) == At(s);
  }

  /** A declaration never reports an error, whatever it looks like. */
  lemma {:induction false} FieldsAreSilent(u: bool, p: Ptr, version: string, encoding: string, standalone: string,
                                           e: Error)
    ensures DeclarationFields(u, p, version, encoding, standalone, e).err == e
    decreases PtrLength(p)
  {
    if p.At? && p.rest != "" && p.rest[0] != '>' && DropWhiteSpace(u, p.rest) != "" {
      var next, v, c, a := OneField(u, p.rest, DropWhiteSpace(u, p.rest), version, encoding, standalone, e);
      FieldsAreSilent(u, next, v, c, a, e);
    }
  }

  lemma DeclarationIsSilent(u: bool, s: string, e: Error)
    requires s != "" && s[0] == '<' && Identify(s) == DeclarationKind
    ensures ParseNode(u, s, e).err == e
  {
    assert SkipWhiteSpace(u, At(s)) == At(s);
    FieldsAreSilent(u, At(s[5..]), "", "", "", e);
  }

  /** A word that is no field: it runs to white space or to the closing bracket. */
  predicate OtherWord(w: string) {
    w != "" && (forall c <- w :: !IsWhiteSpace(c) && c != '>') && !IsField(w)
  }

  /** It is read over. */
  lemma OtherWordSkipped(u: bool, w: string, r: string, version: string, encoding: string, standalone: string, e: Error)
    requires OtherWord(w) && !(u && IsMark(w + r)) && (r == "" || IsWhiteSpace(r[0]) || r[0] == '>')
    ensures DeclarationFields(u, At(w + r), version, encoding, standalone, e)
         == DeclarationFields(u, At(r), version, encoding, standalone, e)
  {
    var s := w + r;
    assert s[0] == w[0] && w[0] in w && DropWhiteSpace(u, s) == s;
    NoFieldAhead(w, r, "version");
    NoFieldAhead(w, r, "encoding");
    NoFieldAhead(w, r, "standalone");
    TokenIs(w, r);
    assert s[|w|..] == r;
  }

  lemma NoFieldAhead(w: string, r: string, key: string)
    requires !PrefixIgnoringCase(key, w) && (r == "" || IsWhiteSpace(r[0]) || r[0] == '>')
    requires forall c <- key :: 'a' <= c <= 'z'
    ensures !PrefixIgnoringCase(key, w + r)
  {
    if |key| <= |w| {
      var i :| 0 <= i < |key| && ToLower(key[i]) != ToLower(w[i]);
      assert (w + r)[i] == w[i];
    } else if r != "" {
      assert (w + r)[|w|] == r[0] && key[|w|] in key;
    }
  }

  lemma {:induction false} TokenIs(w: string, r: string)
    requires (forall c <- w :: !IsWhiteSpace(c) && c != '>') && (r == "" || IsWhiteSpace(r[0]) || r[0] == '>')
    ensures TokenLength(w + r) == |w|
  {
    if w == "" {
      assert w + r == r;
    } else {
      assert w[0] in w && (w + r)[1..] == w[1..] + r;
      assert forall c <- w[1..] :: c in w;
      TokenIs(w[1..], r);
    }
  }

  // ---- Attributes ----

  /** A name has to be followed by an equals sign and a value. */
  lemma NoEquals(u: bool, name: string, w: string, after: string, s: string, e: Error)
    requires ReadableName(u, name) && AllWhiteSpace(w) && !Skips(u, after) && s == name + (w + after)
    requires after == "" || after[0] != '='
    requires w == "" && after != "" ==> !IsNameChar(after[0])
    ensures ParseAttribute(u, s, e) == AttributeResult(Null, Attribute(name, ""), First(e, ReadingAttributes))
  {
    if w == "" {
      assert w + after == after;
    } else {
      assert (w + after)[0] == w[0] && w[0] in w && !IsNameChar(w[0]);
    }
    NameAndMore(u, name, w + after, s);
    DropWhiteSpaceConcat(u, w, after);
  }

  lemma NameAndMore(u: bool, name: string, more: string, s: string)
    requires ReadableName(u, name) && s == name + more && (more != "" ==> !IsNameChar(more[0]))
    ensures SkipWhiteSpace(u, At(s)) == At(s) && ReadName(At(s)) == NameResult(At(more), name)
  {
    NameNotSkipped(u, name, more);
    ReadNameConcat(name, more);
  }

  lemma NoName(u: bool, s: string, e: Error)
    requires s != "" && !Skips(u, s) && !IsNameStart(s[0])
    ensures ParseAttribute(u, s, e) == AttributeResult(Null, Attribute("", ""), First(e, ReadingAttributes))
  {
  }

  /** The text ends behind the equals sign, or behind white space after it. */
  lemma NoValue(u: bool, s: string, name: string, w: string, e: Error)
    requires ReadableName(u, name) && AllWhiteSpace(w) && s == name + ("=" + w)
    ensures ParseAttribute(u, s, e) == AttributeResult(Null, Attribute(name, ""), First(e, ReadingAttributes))
  {
    var more := "=" + w;
    NameAndMore(u, name, more, s);
    assert more[0] == '=' && more[1..] == w && SkipWhiteSpace(u, At(more)) == At(more);
    assert w + "" == w;
    DropWhiteSpaceConcat(u, w, "");
  }

  /** A value without quotes: no white space, no quote, and nothing that could end the tag. */
  predicate Bare(v: string) {
    forall c <- v :: !IsWhiteSpace(c) && c != '/' && c != '>' && c != '\'' && c != '"'
  }

  predicate EndsBare(s: string) {
    s == "" || IsWhiteSpace(s[0]) || s[0] == '/' || s[0] == '>' || s[0] == '\'' || s[0] == '"'
  }

  lemma {:induction false} UnquotedIs(v: string, after: string)
    requires Bare(v) && EndsBare(after)
    ensures UnquotedLength(v + after) == |v|
  {
    if v == "" {
      assert v + after == after;
    } else {
      assert v[0] in v && (v + after)[1..] == v[1..] + after;
      assert forall c <- v[1..] :: c in v;
      UnquotedIs(v[1..], after);
    }
  }

  /** It is taken as it is, references and all, up to white space or the end of the tag; a quote behind it is
      an error. */
  lemma BareValue(u: bool, name: string, v: string, after: string, s: string, e: Error)
    requires ReadableName(u, name) && v != "" && Bare(v) && EndsBare(after) && !Skips(u, v + after)
    requires s == name + ("=" + (v + after))
    ensures ParseAttribute(u, s, e) ==
      if after != "" && (after[0] == '\'' || after[0] == '"')
      then AttributeResult(Null, Attribute(name, v), First(e, ReadingAttributes))
      else AttributeResult(At(after), Attribute(name, v), e)
  {
    var more := "=" + (v + after);
    NameAndMore(u, name, more, s);
    assert more[0] == '=' && more[1..] == v + after && (v + after)[0] == v[0] && v[0] in v;
    assert SkipWhiteSpace(u, At(more)) == At(more) && SkipWhiteSpace(u, At(v + after)) == At(v + after);
    UnquotedIs(v, after);
    assert (v + after)[..|v|] == v && (v + after)[|v|..] == after;
  }

  /** A numeric reference without a semicolon: what is read as text or value ends there, with the zero pointer. */
  lemma BrokenReferenceStops(u: bool, t: string, tag: string, trim: bool)
    requires t != "" && ';' !in t && tag != "" && tag[0] != '&'
    ensures ReadText(u, At("&#" + t), tag, trim) == TextResult(Null, "")
  {
    var s := "&#" + t;
    assert s[0] == '&' && s[1] == '#' && SkipWhiteSpace(u, At(s)) == At(s);
    NoSemicolon(s);
  }

  /** In the value of an attribute that is the error of the element, in the text of an element that of its value. */
  lemma BrokenReference(u: bool, n: Node, name: string, tail: string, t: string, s: string, e: Error)
    requires n.Element? && n.children == [] && WellFormed(u, n) && ReadableName(u, name) && t != "" && ';' !in t
    requires s == "<" + (n.name + (PrintAttributes(Visible(n.attributes)) + tail))
    ensures tail == " " + (name + ("=" + ("\"" + ("&#" + t)))) ==>
              s[0] == '<' && ParseNode(u, s, e) == NodeResult(Null, n, First(e, ParsingElement))
    ensures tail == ">" + ("&#" + t) ==>
              s[0] == '<' && ParseNode(u, s, e) == NodeResult(Null, n, First(e, ElementValue))
  {
    var r := "&#" + t;
    if tail == " " + (name + ("=" + ("\"" + r))) {
      var a := name + ("=" + ("\"" + r));
      ElementHead(u, n, s, tail, e);
      AttributeHead(u, a, name, "\"", r, e);
      BrokenReferenceStops(u, t, "\"", false);
      assert ("\"" + r)[1..] == r && ("\"" + r)[0] == '"';
      assert tail[0] == ' ' && tail[1..] == a && DropWhiteSpace(u, tail) == DropWhiteSpace(u, a) == a;
    } else if tail == ">" + r {
      ElementHead(u, n, s, tail, e);
      BrokenReferenceStops(u, t, "<", true);
      assert tail[1..] == r && DropWhiteSpace(u, tail) == tail;
      BrokenText(u, r, e);
    }
  }

  lemma BrokenText(u: bool, r: string, e: Error)
    requires r != "" && r[0] == '&' && ReadText(u, At(r), "<", true) == TextResult(Null, "")
    ensures ReadValue(u, At(r), [], e) == NodesResult(Null, [], First(e, ElementValue))
  {
    assert SkipWhiteSpace(u, At(r)) == At(r) && ParseText(u, r) == TextResult(Null, "");
    assert Blank("");
  }

  // ---- Leaves ----

  /** A comment that is not closed takes the rest of the text, and the parser goes on beyond its end. */
  lemma CommentNotClosed(u: bool, s: string, t: string, e: Error)
    requires s == "<!--" + t
    ensures s[0] == '<' && (NoTag(t, "-->") <==> ParseNode(u, s, e) == NodeResult(Wild, Comment(t), e))
  {
    KindByPrefix(s);
    assert s[4..] == t && SkipWhiteSpace(u, At(s)) == At(s);
    ScanWhole(t, "-->");
    assert t[..|t|] == t;
  }

  /** So does a CDATA section. */
  lemma SectionNotClosed(u: bool, s: string, t: string, e: Error)
    requires s == "<![CDATA[" + t
    ensures s[0] == '<' && (NoTag(t, "]]>") <==> ParseNode(u, s, e) == NodeResult(Wild, Text(t, true), e))
  {
    KindByPrefix(s);
    assert s[9..] == t;
    ScanWhole(t, "]]>");
    assert t[..|t|] == t;
  }

  /** What is inside an element takes it along: with a comment in it that is not closed the parser goes on beyond
      the end, and reports no error. */
  lemma CommentNotClosedInside(u: bool, n: Node, s: string, t: string, e: Error)
    requires n.Element? && n.children == [] && WellFormed(u, n) && NoTag(t, "-->")
    requires s == "<" + (n.name + (PrintAttributes(Visible(n.attributes)) + (">" + ("<!--" + t))))
    ensures s[0] == '<' && ParseNode(u, s, e) == NodeResult(Wild, Element(n.name, n.attributes, [Comment(t)]), e)
  {
    var inside := "<!--" + t;
    ElementHead(u, n, s, ">" + inside, e);
    CommentNotClosed(u, inside, t, e);
    KindByPrefix(inside);
    assert (">" + inside)[1..] == inside && DropWhiteSpace(u, ">" + inside) == ">" + inside;
    assert SkipWhiteSpace(u, At(inside)) == At(inside);
    assert [] + [Comment(t)] == [Comment(t)];
    assert ReadValue(u, At(inside), [], e) == ReadValue(u, Wild, [Comment(t)], e);
  }

  lemma ScanWhole(t: string, tag: string)
    requires tag != ""
    ensures NoTag(t, tag) <==> ScanTo(t, tag) == |t|
    ensures ScanTo(t, tag) < |t| ==> |t[ScanTo(t, tag)..]| >= |tag|
  {
    if ScanTo(t, tag) < |t| { assert tag <= t[ScanTo(t, tag)..]; }
  }

  /** An unknown tag takes the rest of the text and stops at its end. */
  lemma UnknownNotClosed(u: bool, s: string, t: string, e: Error)
    requires s == "<" + t && Identify(s) == UnknownKind && '>' !in t
    ensures ParseNode(u, s, e) == NodeResult(At(""), Unknown(t), e)
  {
    assert s[1..] == t && SkipWhiteSpace(u, At(s)) == At(s);
    NoTagOfOne(t);
    ScanWhole(t, ">");
    assert t[..|t|] == t;
  }

  /** What each node's parser reports when it is not at the start of such a node. */
  lemma NotThatNode(u: bool, s: string, e: Error)
    requires s != "" && !Skips(u, s)
    ensures !("<!--" <= s) ==> ParseComment(u, s, e) == NodeResult(Null, Comment(""), First(e, ParsingComment))
    ensures !("<![CDATA[" <= s) ==> ParseCData(s, e) == NodeResult(Null, Text("", true), First(e, ParsingCData))
    ensures s[0] != '<' ==> ParseUnknown(u, s, e) == NodeResult(Null, Unknown(""), First(e, ParsingUnknown))
    ensures s[0] != '<' ==> ParseElement(u, s, e) == NodeResult(Null, Element("", [], []), First(e, ParsingElement))
    ensures !PrefixIgnoringCase("<?xml", s) ==>
              ParseDeclaration(u, s, e) == NodeResult(Null, Declaration("", "", ""), First(e, ParsingDeclaration))
  {
    assert SkipWhiteSpace(u, At(s)) == At(s);
  }

  // ---- Documents ----

  /** Nothing but white space is an error, and so is a text that does not start with a tag. */
  lemma NoDocument(enc: Encoding, w: string, t: string)
    requires AllWhiteSpace(w) && !Skips(AtStart(enc, w + t).Utf8?, t) && (t == "" || t[0] != '<')
    ensures ParseDocument(enc, w + t) == NodesResult(Null, [], DocumentEmpty)
  {
    if w + t != "" { DropWhiteSpaceConcat(AtStart(enc, w + t).Utf8?, w, t); }
  }

  /** Behind the nodes of a document a text ends the reading without an error. */
  lemma TextAfterNodes(enc: Encoding, t: string, nodes: seq<Node>, e: Error)
    requires t != "" && t[0] != '<'
    ensures DocumentNodes(enc, At(t), nodes, e) == NodesResult(At(t), nodes, e)
  {
  }
}
