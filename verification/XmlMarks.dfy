/** Where the parser calls Stamp: at the start of every node and attribute, and at the place of the first
    error. Each function lists the calls that the function of the same name in XmlParse makes. */
module XmlMarks {
  import opened Options
  import opened XmlText
  import opened XmlTree
  import opened XmlParse
  import opened XmlPosition

  predicate InMode(u: bool, marks: seq<Mark>) {
    forall m <- marks :: m.utf8 == u
  }

  function StartMarks(u: bool, p: Ptr): (marks: seq<Mark>)
    ensures InMode(u, marks)
  {
    if p.At? then [Mark(u, |p.rest|)] else []
  }

  /** SetError: no call without a place, and none after the first error. */
  function ErrorMarks(u: bool, e: Error, p: Ptr): (marks: seq<Mark>)
    ensures InMode(u, marks)
  {
    if e == NoError then StartMarks(u, p) else []
  }

  function CommentMarks(u: bool, s: string, e: Error): (marks: seq<Mark>)
    ensures InMode(u, marks)
  {
    var p := SkipWhiteSpace(u, At(s));
    StartMarks(u, p) + if StringEqual(p, "<!--", false) then [] else ErrorMarks(u, e, p)
  }

  function UnknownMarks(u: bool, s: string, e: Error): (marks: seq<Mark>)
    ensures InMode(u, marks)
  {
    var p := SkipWhiteSpace(u, At(s));
    StartMarks(u, p) + if p.Null? || p.rest == "" || p.rest[0] != '<' then ErrorMarks(u, e, p) else []
  }

  function CDataMarks(u: bool, s: string, e: Error): (marks: seq<Mark>)
    ensures InMode(u, marks)
  {
    StartMarks(u, At(s)) + if StringEqual(At(s), "<![CDATA[", false) then [] else ErrorMarks(u, e, At(s))
  }

  function ValueMarks(u: bool, s: string, e: Error): (marks: seq<Mark>)
    requires s != ""
    ensures InMode(u, marks)
  {
    var n := UnquotedLength(s);
    if s[0] != '\'' && s[0] != '"' && n < |s| && (s[n] == '\'' || s[n] == '"') then ErrorMarks(u, e, At(s[n..]))
    else []
  }

  /** Where the error of an attribute is, if there is one. */
  function AttributeErrorMarks(u: bool, p: Ptr, e: Error): (marks: seq<Mark>)
    requires p.At? && p.rest != ""
    ensures InMode(u, marks)
  {
    var n := ReadName(p);
    if n.p.Null? || n.p.rest == "" then ErrorMarks(u, e, p)
    else
      var q := SkipWhiteSpace(u, n.p);
      if q.Null? || q.rest == "" || q.rest[0] != '=' then ErrorMarks(u, e, q)
      else
        var v := SkipWhiteSpace(u, At(q.rest[1..]));
        if v.Null? || v.rest == "" then ErrorMarks(u, e, v) else ValueMarks(u, v.rest, e)
  }

  /** The attributes of a declaration have no document to report to. */
  function AttributeMarks(u: bool, s: string, e: Error, reports: bool): (marks: seq<Mark>)
    ensures InMode(u, marks)
  {
    var p := SkipWhiteSpace(u, At(s));
    if p.Null? || p.rest == "" then []
    else StartMarks(u, p) + if reports then AttributeErrorMarks(u, p, e) else []
  }

  predicate IsField(s: string) {
    PrefixIgnoringCase("version", s) || PrefixIgnoringCase("encoding", s) || PrefixIgnoringCase("standalone", s)
  }

  function FieldMarks(u: bool, p: Ptr): (marks: seq<Mark>)
    ensures InMode(u, marks)
    decreases if p.At? then |p.rest| else 0
  {
    if !p.At? || p.rest == "" || p.rest[0] == '>' then []
    else
      var t := DropWhiteSpace(u, p.rest);
      if t == "" then []
      else if IsField(t) then AttributeMarks(u, t, NoError, false) + FieldMarks(u, ParseAttribute(u, t, NoError).p)
      else FieldMarks(u, At(t[TokenLength(t)..]))
  }

  function DeclarationMarks(u: bool, s: string): (marks: seq<Mark>)
    ensures InMode(u, marks)
  {
    var p := SkipWhiteSpace(u, At(s));
    if !StringEqual(p, "<?xml", true) then [] else StartMarks(u, p) + FieldMarks(u, At(p.rest[5..]))
  }

  /** Behind the attributes of an element: the children, and the error of a missing end tag. */
  function ContentMarks(u: bool, s: string, name: string, e: Error): (marks: seq<Mark>)
    ensures InMode(u, marks)
    decreases |s|, 6
  {
    var v := ReadValue(u, At(s), [], e);
    ChildMarks(u, At(s), e)
    + if v.p.Wild? || (v.p.At? && v.p.rest != "" && EndTag(name) <= v.p.rest) then [] else ErrorMarks(u, v.err, v.p)
  }

  function AttributesMarks(u: bool, s: string, name: string, attrs: seq<Attribute>, e: Error): (marks: seq<Mark>)
    ensures InMode(u, marks)
    decreases |s|, 1
  {
    var t := DropWhiteSpace(u, s);
    if s == "" then []
    else if t == "" then ErrorMarks(u, e, At(s))
    else if t[0] == '/' then (if |t| > 1 && t[1] == '>' then [] else ErrorMarks(u, e, At(t[1..])))
    else if t[0] == '>' then ContentMarks(u, t[1..], name, e)
    else
      var a := ParseAttribute(u, t, e);
      AttributeMarks(u, t, e, true) +
      if a.p.Wild? then []
      else if a.p.Null? || a.p.rest == "" then ErrorMarks(u, a.err, At(t))
      else if FindAttribute(attrs, a.attribute.name) < |attrs| then []
      else AttributesMarks(u, a.p.rest, name, attrs + [a.attribute], a.err)
  }

  /** An element from its opening bracket on. */
  function TagMarks(u: bool, s: string, e: Error): (marks: seq<Mark>)
    requires s != ""
    ensures InMode(u, marks)
    decreases |s|, 2
  {
    if s[0] != '<' then ErrorMarks(u, e, At(s))
    else
      var q := SkipWhiteSpace(u, At(s[1..]));
      var n := ReadName(q);
      if n.p.Null? || n.p.rest == "" then ErrorMarks(u, e, q) else AttributesMarks(u, n.p.rest, n.name, [], e)
  }

  function ElementMarks(u: bool, s: string, e: Error): (marks: seq<Mark>)
    ensures InMode(u, marks)
    decreases |s|, 3
  {
    var p := SkipWhiteSpace(u, At(s));
    if p.Null? || p.rest == "" then [] else StartMarks(u, p) + TagMarks(u, p.rest, e)
  }

  function NodeMarks(u: bool, s: string, e: Error): (marks: seq<Mark>)
    requires s != "" && s[0] == '<'
    ensures InMode(u, marks)
    decreases |s|, 4
  {
    match Identify(s)
    case DeclarationKind => DeclarationMarks(u, s)
    case CommentKind => CommentMarks(u, s, e)
    case CDataKind => CDataMarks(u, s, e)
    case UnknownKind => UnknownMarks(u, s, e)
    case ElementKind => ElementMarks(u, s, e)
  }

  function ChildMarks(u: bool, q: Ptr, e: Error): (marks: seq<Mark>)
    ensures InMode(u, marks)
    decreases PtrLength(q), 5
  {
    var p := SkipWhiteSpace(u, q);
    if !p.At? || p.rest == "" then []
    else if p.rest[0] != '<' then StartMarks(u, p) + ChildMarks(u, ParseText(u, p.rest).stop, e)
    else if "</" <= p.rest then []
    else
      var x := ParseNode(u, p.rest, e);
      NodeMarks(u, p.rest, e) + ChildMarks(u, x.p, x.err)
  }

  function DocumentMarks(enc: Encoding, p: Ptr, e: Error): seq<Mark>
    decreases PtrLength(p)
  {
    if p.At? && p.rest != "" && p.rest[0] == '<' then
      var x := ParseNode(enc.Utf8?, p.rest, e);
      var enc' := After(enc, x.node);
      NodeMarks(enc.Utf8?, p.rest, e) + DocumentMarks(enc', SkipWhiteSpace(enc'.Utf8?, x.p), x.err)
    else []
  }

  /** All calls that parsing a text makes. */
  function ParseMarks(enc: Encoding, s: string): seq<Mark> {
    if s == "" then []
    else
      var start := AtStart(enc, s);
      DocumentMarks(start, SkipWhiteSpace(start.Utf8?, At(s)), NoError)
  }

  /** Parsing comes to an end. */
  predicate Ends(enc: Encoding, s: string, c: Cursor, tab: int) {
    Track(s, Some(c), ParseMarks(enc, s), tab).Some?
  }

  // ---- Room behind the calls of a parse that succeeds ----

  /** Every call is in front of more than n bytes. */
  predicate Before(marks: seq<Mark>, n: nat) {
    forall m <- marks :: m.left > n
  }

  lemma RoomInAttribute(u: bool, s: string, e: Error, reports: bool)
    requires ParseAttribute(u, s, e).p.At?
    ensures Before(AttributeMarks(u, s, e, reports), |ParseAttribute(u, s, e).p.rest|)
  {
  }

  lemma BeforeJoin(a: seq<Mark>, b: seq<Mark>, n: nat)
    ensures Before(a + b, n) <==> Before(a, n) && Before(b, n)
  {
    if Before(a + b, n) {
      forall m <- a ensures m.left > n { assert m in a + b; }
      forall m <- b ensures m.left > n { assert m in a + b; }
    }
  }

  lemma BeforeLess(a: seq<Mark>, k: nat, n: nat)
    requires Before(a, k) && n <= k
    ensures Before(a, n)
  {
  }

  lemma RoomJoin(a: seq<Mark>, k: nat, b: seq<Mark>, n: nat)
    requires Before(a, k) && n <= k && Before(b, n)
    ensures Before(a + b, n)
  {
  }

  /** Behind a field the loop of the declaration goes on with what follows the attribute. */
  lemma FieldGoesOn(u: bool, s: string, t: string, version: string, encoding: string, standalone: string, e: Error)
      returns (version': string, encoding': string, standalone': string)
    requires s != "" && s[0] != '>' && t == DropWhiteSpace(u, s) && t != "" && IsField(t)
    ensures DeclarationFields(u, At(s), version, encoding, standalone, e)
         == DeclarationFields(u, ParseAttribute(u, t, NoError).p, version', encoding', standalone', e)
  {
    var value := ParseAttribute(u, t, NoError).attribute.value;
    version', encoding', standalone' := version, encoding, standalone;
    if PrefixIgnoringCase("version", t) { version' := value; }
    else if PrefixIgnoringCase("encoding", t) { encoding' := value; }
    else { standalone' := value; }
  }

  lemma TokenPassed(u: bool, s: string, t: string, version: string, encoding: string, standalone: string, e: Error)
    requires s != "" && s[0] != '>' && t == DropWhiteSpace(u, s) && t != "" && !IsField(t)
    ensures var next := At(t[TokenLength(t)..]);
            && FieldMarks(u, At(s)) == FieldMarks(u, next)
            && DeclarationFields(u, At(s), version, encoding, standalone, e)
               == DeclarationFields(u, next, version, encoding, standalone, e)
  {
  }

  lemma EndOfFields(u: bool, p: Ptr, version: string, encoding: string, standalone: string, e: Error)
    requires DeclarationFields(u, p, version, encoding, standalone, e).p.At?
    ensures p.At? && |DeclarationFields(u, p, version, encoding, standalone, e).p.rest| < |p.rest|
  {
  }

  lemma {:induction false} RoomInFields(u: bool, p: Ptr, version: string, encoding: string, standalone: string,
                                        e: Error)
    requires DeclarationFields(u, p, version, encoding, standalone, e).p.At?
    ensures Before(FieldMarks(u, p), |DeclarationFields(u, p, version, encoding, standalone, e).p.rest| + 1)
    decreases if p.At? then |p.rest| else 0
  {
    if p.At? && p.rest != "" && p.rest[0] != '>' {
      var t := DropWhiteSpace(u, p.rest);
      var rest := DeclarationFields(u, p, version, encoding, standalone, e).p.rest;
      if t == "" {
      } else if IsField(t) {
        var next := ParseAttribute(u, t, NoError).p;
        var v, c, d := FieldGoesOn(u, p.rest, t, version, encoding, standalone, e);
        EndOfFields(u, next, v, c, d, e);
        RoomInFields(u, next, v, c, d, e);
        RoomInField(u, p.rest, t, |rest| + 1);
      } else {
        TokenPassed(u, p.rest, t, version, encoding, standalone, e);
        RoomInFields(u, At(t[TokenLength(t)..]), version, encoding, standalone, e);
      }
    }
  }

  lemma RoomInField(u: bool, s: string, t: string, n: nat)
    requires s != "" && s[0] != '>' && t == DropWhiteSpace(u, s) && t != "" && IsField(t)
    requires var a := ParseAttribute(u, t, NoError); a.p.At? && n <= |a.p.rest| && Before(FieldMarks(u, a.p), n)
    ensures Before(FieldMarks(u, At(s)), n)
  {
    var a := ParseAttribute(u, t, NoError);
    RoomInAttribute(u, t, NoError, false);
    RoomJoin(AttributeMarks(u, t, NoError, false), |a.p.rest|, FieldMarks(u, a.p), n);
  }

  lemma {:induction false} RoomInAttributes(u: bool, s: string, name: string, attrs: seq<Attribute>, e: Error)
    requires s != "" && ParseAttributes(u, s, name, attrs, e).p.At?
    ensures Before(AttributesMarks(u, s, name, attrs, e), |ParseAttributes(u, s, name, attrs, e).p.rest| + 1)
    decreases |s|, 1
  {
    var t := DropWhiteSpace(u, s);
    if t == "" || t[0] == '/' {
    } else if t[0] == '>' {
      RoomInChildren(u, At(t[1..]), [], e);
    } else {
      var a := ParseAttribute(u, t, e);
      if a.p.At? && a.p.rest != "" {
        RoomInAttribute(u, t, e, true);
        if FindAttribute(attrs, a.attribute.name) == |attrs| {
          RoomInAttributes(u, a.p.rest, name, attrs + [a.attribute], a.err);
        }
      }
    }
  }

  lemma {:induction false} RoomInElement(u: bool, s: string, e: Error)
    requires s != "" && s[0] == '<' && ParseElement(u, s, e).p.At?
    ensures Before(ElementMarks(u, s, e), |ParseElement(u, s, e).p.rest|) && Before(ElementMarks(u, s, e), 1)
    decreases |s|, 2
  {
    assert SkipWhiteSpace(u, At(s)) == At(s);
    var n := ReadName(SkipWhiteSpace(u, At(s[1..])));
    var rest := ParseElement(u, s, e).p.rest;
    RoomInAttributes(u, n.p.rest, n.name, [], e);
    var inner := AttributesMarks(u, n.p.rest, n.name, [], e);
    assert ElementMarks(u, s, e) == StartMarks(u, At(s)) + inner;
    BeforeLess(inner, |rest| + 1, |rest|);
    BeforeLess(inner, |rest| + 1, 1);
    BeforeJoin(StartMarks(u, At(s)), inner, |rest|);
    BeforeJoin(StartMarks(u, At(s)), inner, 1);
  }

  lemma RoomInDeclaration(u: bool, s: string, e: Error)
    requires s != "" && s[0] == '<' && ParseDeclaration(u, s, e).p.At?
    ensures Before(DeclarationMarks(u, s), |ParseDeclaration(u, s, e).p.rest|) && Before(DeclarationMarks(u, s), 1)
  {
    assert SkipWhiteSpace(u, At(s)) == At(s);
    var rest := ParseDeclaration(u, s, e).p.rest;
    RoomInFields(u, At(s[5..]), "", "", "", e);
    var inner := FieldMarks(u, At(s[5..]));
    BeforeLess(inner, |rest| + 1, |rest|);
    BeforeLess(inner, |rest| + 1, 1);
    BeforeJoin(StartMarks(u, At(s)), inner, |rest|);
    BeforeJoin(StartMarks(u, At(s)), inner, 1);
  }

  lemma RoomInLeaf(u: bool, s: string, e: Error)
    requires s != "" && s[0] == '<' && !Identify(s).DeclarationKind? && !Identify(s).ElementKind?
    requires ParseNode(u, s, e).p.At?
    ensures NodeMarks(u, s, e) == StartMarks(u, At(s))
  {
    assert SkipWhiteSpace(u, At(s)) == At(s);
  }

  /** A node that was read is in front of what follows it; and no call is at the last byte of the text. */
  lemma {:induction false} RoomInNode(u: bool, s: string, e: Error)
    requires s != "" && s[0] == '<' && ParseNode(u, s, e).p.At?
    ensures Before(NodeMarks(u, s, e), |ParseNode(u, s, e).p.rest|)
    ensures |s| > 1 ==> Before(NodeMarks(u, s, e), 1)
    decreases |s|, 3
  {
    match Identify(s)
    case DeclarationKind => RoomInDeclaration(u, s, e);
    case ElementKind => RoomInElement(u, s, e);
    case _ => RoomInLeaf(u, s, e);
  }

  /** The loop over children goes on behind a text or a node. */
  lemma ValueGoesOn(u: bool, q: Ptr, t: string, nodes: seq<Node>, e: Error)
      returns (next: Ptr, all: seq<Node>, err: Error)
    requires SkipWhiteSpace(u, q) == At(t) && t != "" && !("</" <= t)
    ensures ReadValue(u, q, nodes, e) == ReadValue(u, next, all, err) && PtrLength(next) < PtrLength(q)
    ensures t[0] != '<' ==> next == ParseText(u, t).stop && err == e
    ensures t[0] == '<' ==> next == ParseNode(u, t, e).p && err == ParseNode(u, t, e).err
  {
    if t[0] != '<' {
      var x := ParseText(u, t);
      next, all, err := x.stop, if Blank(x.text) then nodes else nodes + [Text(x.text, false)], e;
    } else {
      var x := ParseNode(u, t, e);
      next, all, err := x.p, nodes + [x.node], x.err;
    }
  }

  lemma RoomInText(u: bool, q: Ptr, t: string, n: nat, e: Error)
    requires SkipWhiteSpace(u, q) == At(t) && t != "" && t[0] != '<'
    requires var stop := ParseText(u, t).stop; stop.At? && n <= |stop.rest| && Before(ChildMarks(u, stop, e), n)
    ensures Before(ChildMarks(u, q, e), n)
  {
    RoomJoin(StartMarks(u, At(t)), n, ChildMarks(u, ParseText(u, t).stop, e), n);
  }

  lemma RoomInChild(u: bool, q: Ptr, t: string, n: nat, e: Error)
    requires SkipWhiteSpace(u, q) == At(t) && t != "" && t[0] == '<' && !("</" <= t)
    requires var x := ParseNode(u, t, e);
             x.p.At? && n <= |x.p.rest| && Before(NodeMarks(u, t, e), |x.p.rest|)
             && Before(ChildMarks(u, x.p, x.err), n)
    ensures Before(ChildMarks(u, q, e), n)
  {
    var x := ParseNode(u, t, e);
    RoomJoin(NodeMarks(u, t, e), |x.p.rest|, ChildMarks(u, x.p, x.err), n);
  }

  lemma {:induction false} RoomInChildren(u: bool, q: Ptr, nodes: seq<Node>, e: Error)
    requires ReadValue(u, q, nodes, e).p.At? && ReadValue(u, q, nodes, e).p.rest != ""
    ensures Before(ChildMarks(u, q, e), |ReadValue(u, q, nodes, e).p.rest|)
    decreases PtrLength(q), 4
  {
    var p := SkipWhiteSpace(u, q);
    var n := |ReadValue(u, q, nodes, e).p.rest|;
    if p.At? && p.rest != "" && !("</" <= p.rest) {
      var next, all, err := ValueGoesOn(u, q, p.rest, nodes, e);
      RoomInChildren(u, next, all, err);
      if p.rest[0] != '<' {
        RoomInText(u, q, p.rest, n, e);
      } else {
        RoomInNode(u, p.rest, e);
        RoomInChild(u, q, p.rest, n, e);
      }
    }
  }

  // ---- Which documents are parsed to an end ----

  lemma MarksJoin(a: seq<Mark>, b: seq<Mark>, c: seq<Mark>)
    ensures a + (b + c) == (a + b) + c && [] + c == c && [] + (a + c) == a + c
  {
  }

  lemma InModeJoin(u: bool, a: seq<Mark>, b: seq<Mark>)
    requires InMode(u, a) && InMode(u, b)
    ensures InMode(u, a + b)
  {
  }

  /** The calls before and after the encoding turns out to be UTF-8. */
  lemma {:induction false} DocumentSplits(enc: Encoding, p: Ptr, e: Error) returns (first: seq<Mark>, later: seq<Mark>)
    ensures DocumentMarks(enc, p, e) == first + later && InMode(false, first) && InMode(true, later)
    ensures (enc.Utf8? ==> first == []) && (enc.Legacy? ==> later == [])
    decreases PtrLength(p)
  {
    first, later := [], [];
    if p.At? && p.rest != "" && p.rest[0] == '<' {
      var x := ParseNode(enc.Utf8?, p.rest, e);
      var enc' := After(enc, x.node);
      var marks := NodeMarks(enc.Utf8?, p.rest, e);
      first, later := DocumentSplits(enc', SkipWhiteSpace(enc'.Utf8?, x.p), x.err);
      if enc.Utf8? {
        MarksJoin(marks, [], later);
        InModeJoin(true, marks, later);
        later := marks + later;
      } else {
        MarksJoin(marks, first, later);
        InModeJoin(false, marks, first);
        first := marks + first;
      }
    }
  }

  /** Parsing ends exactly if, in UTF-8, the way from the last call in another mode to the furthest call does
      not meet a byte 0xEF among the last two. */
  lemma EndsExactly(enc: Encoding, s: string, c: Cursor, tab: int) returns (first: seq<Mark>, later: seq<Mark>)
    requires tab > 0
    ensures ParseMarks(enc, s) == first + later && InMode(false, first) && InMode(true, later)
    ensures var d := Track(s, Some(c), first, tab);
            && d.Some?
            && Furthest(Positions(s, later)) <= |s|
            && (Ends(enc, s, c, tab) <==> !Sticks(true, s, d.value.stamp, Furthest(Positions(s, later))))
  {
    first, later := [], [];
    if s != "" {
      var start := AtStart(enc, s);
      first, later := DocumentSplits(start, SkipWhiteSpace(start.Utf8?, At(s)), NoError);
    }
    TwoModesEnd(s, c, first, later, tab);
  }

  /** So every document ends whose last two bytes are not 0xEF, and every document in another encoding. */
  lemma EndsUnlessLate(enc: Encoding, s: string, c: Cursor, tab: int)
    requires NoLateLead(s) || enc.Legacy?
    ensures Ends(enc, s, c, tab)
  {
    if !NoLateLead(s) && s != "" {
      var first, later := DocumentSplits(enc, SkipWhiteSpace(false, At(s)), NoError);
      assert first + later == first;
    }
    EarlyCallsEnd(s, c, ParseMarks(enc, s), tab);
  }

  lemma LetterIsElement(s: string)
    requires |s| > 1 && s[0] == '<' && s[1] == 'a'
    ensures Identify(s) == ElementKind
  {
    assert ToLower("<?xml"[1]) == '?' && ToLower(s[1]) == 'a' && "<!--"[1] == '!' && "<![CDATA["[1] == '!';
    assert "<!"[1] == '!';
  }

  /** An attribute that is nothing but a name, in front of the closing bracket. */
  lemma NamelessValue(s: string, close: string)
    requires s == [0xEF as char] + close && close == ">"
    ensures AttributeMarks(true, s, NoError, true) == [Mark(true, 2), Mark(true, 1)]
    ensures ParseAttribute(true, s, NoError).p == Null && ParseAttribute(true, s, NoError).err != NoError
  {
    assert s[1..] == close && s[..1] == [s[0]] && !IsMark(s);
    assert NameLength(close) == 0 && NameLength(s) == 1;
    assert ReadName(At(s)) == NameResult(At(close), s[..1]);
    assert SkipWhiteSpace(true, At(s)) == At(s) && SkipWhiteSpace(true, At(close)) == At(close);
  }

  lemma AttributeStamps(s: string, attribute: string)
    requires s == " " + attribute && attribute == [0xEF as char] + ">"
    ensures AttributesMarks(true, s, "a", [], NoError) == [Mark(true, 2), Mark(true, 1)]
    ensures ParseAttributes(true, s, "a", [], NoError).p == Null
  {
    NamelessValue(attribute, ">");
    assert s[1..] == attribute && !IsMark(attribute) && !IsMark(s);
    assert DropWhiteSpace(true, attribute) == attribute && DropWhiteSpace(true, s) == attribute;
  }

  lemma NameOfTag(s: string, name: string, rest: string)
    requires s == "<" + name && name == "a" + rest && rest != "" && rest[0] == ' '
    ensures SkipWhiteSpace(true, At(s)) == At(s) && DropWhiteSpace(true, s) == s && s[0] == '<' && s[1] == 'a'
    ensures ReadName(SkipWhiteSpace(true, At(s[1..]))) == NameResult(At(rest), "a")
  {
    assert s[1..] == name && name[1..] == rest && name[..1] == "a";
    assert SkipWhiteSpace(true, At(name)) == At(name);
    assert NameLength(rest) == 0 && NameLength(name) == 1;
  }

  /** An element whose attributes are parsed without a result. */
  lemma StampsOfTag(s: string, rest: string, inner: seq<Mark>)
    requires |s| > 1 && s[0] == '<' && s[1] == 'a' && SkipWhiteSpace(true, At(s)) == At(s) && rest != ""
    requires ReadName(SkipWhiteSpace(true, At(s[1..]))) == NameResult(At(rest), "a")
    requires AttributesMarks(true, rest, "a", [], NoError) == inner
    requires ParseAttributes(true, rest, "a", [], NoError).p.Null?
    ensures NodeMarks(true, s, NoError) == [Mark(true, |s|)] + inner && ParseNode(true, s, NoError).p == Null
  {
    LetterIsElement(s);
    assert TagMarks(true, s, NoError) == inner;
    assert ElementMarks(true, s, NoError) == StartMarks(true, At(s)) + inner;
  }

  /** What is done with such a tag: the element, the attribute and the error of the missing equals sign. */
  lemma TagStamps(s: string, name: string, rest: string)
    requires s == "<" + name && name == "a" + rest && rest == " " + ([0xEF as char] + ">")
    ensures NodeMarks(true, s, NoError) == [Mark(true, 5), Mark(true, 2), Mark(true, 1)]
    ensures ParseNode(true, s, NoError).p == Null && DropWhiteSpace(true, s) == s
  {
    NameOfTag(s, name, rest);
    AttributeStamps(rest, [0xEF as char] + ">");
    assert |s| == 5;
    StampsOfTag(s, rest, [Mark(true, 2), Mark(true, 1)]);
  }

  lemma MarkIsSkipped(s: string, t: string)
    requires s == BYTE_ORDER_MARK + t
    ensures BYTE_ORDER_MARK <= s && DropWhiteSpace(true, s) == DropWhiteSpace(true, t)
  {
    assert s[..3] == BYTE_ORDER_MARK && s[3..] == t;
    assert forall i | 0 <= i < 3 :: s[i] == BYTE_ORDER_MARK[i];
    assert IsMark(s);
  }

  lemma DocumentStamps(bom: bool, s: string, tag: string)
    requires s == (if bom then BYTE_ORDER_MARK else "") + tag && tag == "<" + ("a" + (" " + ([0xEF as char] + ">")))
    ensures ParseMarks(if bom then UnknownEncoding else Utf8, s) == [Mark(true, 5), Mark(true, 2), Mark(true, 1)]
  {
    TagStamps(tag, "a" + (" " + ([0xEF as char] + ">")), " " + ([0xEF as char] + ">"));
    if bom { MarkIsSkipped(s, tag); } else { assert s == tag; }
    var x := ParseNode(true, tag, NoError);
    assert DocumentMarks(Utf8, SkipWhiteSpace(true, x.p), x.err) == [];
  }

  lemma FurthestOfThree(s: string)
    requires |s| >= 5
    ensures Furthest(Positions(s, [Mark(true, 5), Mark(true, 2), Mark(true, 1)])) == |s| - 1
  {
    var last := [Mark(true, 1)];
    assert Positions(s, last) == [|s| - 1] && Furthest([|s| - 1]) == |s| - 1;
    var two := [Mark(true, 2)] + last;
    assert two[1..] == last && Positions(s, two)[1..] == Positions(s, last);
    var three := [Mark(true, 5)] + two;
    assert three[1..] == two && Positions(s, three)[1..] == Positions(s, two);
    assert three == [Mark(true, 5), Mark(true, 2), Mark(true, 1)];
  }

  lemma WalkToLead(s: string, pre: string, tag: string)
    requires pre == "" || pre == BYTE_ORDER_MARK
    requires tag == ['<', 'a', ' ', 0xEF as char, '>'] && s == pre + tag
    ensures Sticks(true, s, 0, |s| - 1)
  {
    var q := |pre|;
    assert forall i | 0 <= i < 5 :: s[q + i] == tag[i];
    assert Sticks(true, s, q + 3, |s| - 1);
    assert NextStamp(true, s, q + 2) == q + 3 && NextStamp(true, s, q + 1) == q + 2 && NextStamp(true, s, q) == q + 1;
    assert Sticks(true, s, q + 2, |s| - 1);
    assert Sticks(true, s, q + 1, |s| - 1);
    assert Sticks(true, s, q, |s| - 1);
    if pre != "" {
      assert s[0] == pre[0] && NextStamp(true, s, 0) == 3;
    }
  }

  /** The parser does not end, with or without a byte order mark, on a tag whose attribute is the byte 0xEF
      and has no value: it reports the error behind that byte. */
  lemma AttributeWithoutEnd(bom: bool, c: Cursor, tab: int)
    requires tab > 0 && c.stamp == 0
    ensures var s := (if bom then BYTE_ORDER_MARK else "") + "<a " + [0xEF as char] + ">";
            !Ends(if bom then UnknownEncoding else Utf8, s, c, tab)
  {
    var pre: string := if bom then BYTE_ORDER_MARK else "";
    var s := pre + "<a " + [0xEF as char] + ">";
    var tag := "<" + ("a" + (" " + ([0xEF as char] + ">")));
    assert s == pre + tag;
    var marks := [Mark(true, 5), Mark(true, 2), Mark(true, 1)];
    DocumentStamps(bom, s, tag);
    OneModeEnds(true, s, c, marks, tab);
    FurthestOfThree(s);
    WalkToLead(s, pre, tag);
  }
}
