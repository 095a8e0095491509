/** Printing a well-formed document and parsing the result gives the same document, without
    an error, for every layout made of white space. */
module XmlRoundTrip {
  import opened Options
  import opened XmlText
  import opened XmlEncode
  import opened XmlInverse
  import opened XmlTree
  import opened XmlAttributes
  import opened XmlParse
  import opened XmlPosition
  import opened XmlMarks

  // ---- Documents that survive ----

  predicate NoTag(v: string, tag: string) {
    forall i | 0 <= i < |v| :: !(tag <= v[i..])
  }

  predicate PlainField(u: bool, v: string) {
    FieldReads(u, v) && NoNul(v)
  }

  predicate PlainText(u: bool, v: string) {
    !Blank(v) && Tidy(u, v) && NoHexRef(v) && ReadsWhole(u, v) && !(u && IsMark(v))
  }

  predicate PlainAttribute(u: bool, a: Attribute) {
    ReadableName(u, a.name) && NoHexRef(a.value) && ReadsWhole(u, a.value)
  }

  /** Inside an element, text that starts with "</" is taken for an end tag. */
  predicate LooksLikeEndTag(n: Node) {
    n.Unknown? && n.value != "" && n.value[0] == '/'
  }

  predicate WellFormed(u: bool, n: Node)
    decreases n, 0
  {
    match n
    case Text(v, cdata) => if cdata then NoTag(v, "]]>") && NoNul(v) else PlainText(u, v)
    case Comment(v) => NoTag(v, "-->") && NoNul(v)
    case Declaration(v, e, s) => PlainField(u, v) && PlainField(u, e) && PlainField(u, s)
    case Unknown(v) => '>' !in v && Identify("<" + (v + ">")) == UnknownKind && NoNul(v)
    case Element(name, attrs, children) =>
      && ReadableName(u, name)
      && (forall a <- attrs :: PlainAttribute(u, a))
      && UniqueNames(attrs)
      && WellFormedChildren(u, children)
  }

  predicate WellFormedChildren(u: bool, nodes: seq<Node>)
    decreases nodes, 1
  {
    nodes != [] ==>
      && WellFormed(u, nodes[0])
      && !LooksLikeEndTag(nodes[0])
      && (|nodes| > 1 ==> !(IsPlainText(nodes[0]) && IsPlainText(nodes[1])))
      && WellFormedChildren(u, nodes[1..])
  }

  /** At the top level there is no plain text; a declaration may settle the encoding of what follows. */
  predicate WellFormedTop(enc: Encoding, nodes: seq<Node>)
    decreases |nodes|
  {
    nodes != [] ==>
      && WellFormed(enc.Utf8?, nodes[0])
      && !IsPlainText(nodes[0])
      && WellFormedTop(After(enc, nodes[0]), nodes[1..])
  }

  predicate WellFormedDocument(enc: Encoding, nodes: seq<Node>) {
    nodes != [] && WellFormedTop(enc, nodes)
  }

  predicate Layout(f: Format) {
    AllWhiteSpace(f.indent) && AllWhiteSpace(f.lineBreak)
  }

  // ---- White space between nodes ----

  lemma {:induction false} IndentIsWhiteSpace(depth: nat, f: Format)
    requires Layout(f)
    ensures AllWhiteSpace(Indent(depth, f))
  {
    if depth > 0 { IndentIsWhiteSpace(depth - 1, f); }
  }

  /** ReadValue does not see white space in front of a node. */
  lemma ReadValueSkips(u: bool, s: string, nodes: seq<Node>, e: Error)
    requires DropWhiteSpace(u, s) != ""
    ensures ReadValue(u, At(s), nodes, e) == ReadValue(u, At(DropWhiteSpace(u, s)), nodes, e)
  {
    var t := DropWhiteSpace(u, s);
    assert DropWhiteSpace(u, t) == t;
    assert SkipWhiteSpace(u, At(s)) == At(t) == SkipWhiteSpace(u, At(t));
  }

  // ---- Leaves ----

  predicate ClosingTag(tag: string) {
    tag != "" && tag[|tag| - 1] == '>' && '>' !in tag[..|tag| - 1]
  }

  /** A tag found before the end of the text lies within the text: only its last character closes. */
  lemma TagStraddles(v: string, tag: string, r: string, i: nat)
    requires ClosingTag(tag) && i < |v| && tag <= (v + (tag + r))[i..]
    ensures tag <= v[i..]
  {
    var s := v + (tag + r);
    var last := i + |tag| - 1;
    assert s[last] == s[i..][|tag| - 1] == '>';
    forall k | |v| <= k < |v| + |tag| - 1 ensures s[k] != '>' {
      assert s[k] == tag[k - |v|] == tag[..|tag| - 1][k - |v|];
    }
    assert last < |v|;
    assert forall k | 0 <= k < |tag| :: v[i..][k] == s[i..][k] == tag[k];
  }

  lemma ScanToTag(v: string, tag: string, r: string)
    requires ClosingTag(tag)
    ensures ScanTo(v + (tag + r), tag) == |v| <==> NoTag(v, tag)
    ensures ScanTo(v + (tag + r), tag) <= |v|
  {
    var s := v + (tag + r);
    var n := ScanTo(s, tag);
    assert s[|v|..] == tag + r;
    if NoTag(v, tag) {
      forall i | 0 <= i < |v| ensures tag <= s[i..] ==> tag <= v[i..] {
        if tag <= s[i..] { TagStraddles(v, tag, r, i); }
      }
      assert n >= |v|;
    } else {
      var i :| 0 <= i < |v| && tag <= v[i..];
      assert tag <= s[i..] by { assert forall k | 0 <= k < |tag| :: s[i..][k] == v[i..][k]; }
      assert n <= i;
    }
  }

  /** Taking apart a value between its tags. */
  lemma WrappedShape(s: string, open: string, v: string, close: string, r: string)
    requires s == (open + (v + close)) + r
    ensures open <= s && s[|open|..] == v + (close + r)
    ensures (v + (close + r))[..|v|] == v && (v + (close + r))[|v|..] == close + r && (close + r)[|close|..] == r
  {
    Assoc(open, v + close, r);
    Assoc(v, close, r);
  }

  /** Copying up to the tag and stepping over it gives the value, and leaves what follows, exactly if neither
      the tag nor a NUL, where printing stops, is in the value. */
  lemma WrappedParse(v: string, t: string, tag: string, r: string)
    requires ClosingTag(tag) && t == UpToNul(v) + (tag + r)
    ensures var n := ScanTo(t, tag);
            n < |t| && ((t[..n] == v && Advance(t[n..], |tag|) == At(r)) <==> NoTag(v, tag) && NoNul(v))
  {
    UpToNulIsAll(v);
    ScanGives(UpToNul(v), t, tag, r);
    CutOrWhole(v, UpToNul(v), t, ScanTo(t, tag), tag, r);
  }

  lemma CutOrWhole(v: string, w: string, t: string, n: nat, tag: string, r: string)
    requires n <= |w| <= |v| && n < |t| && (w == v <==> NoNul(v)) && (|w| == |v| ==> w == v)
    requires (t[..n] == w && Advance(t[n..], |tag|) == At(r)) <==> NoTag(w, tag)
    ensures (t[..n] == v && Advance(t[n..], |tag|) == At(r)) <==> NoTag(v, tag) && NoNul(v)
  {
    if w != v { assert |t[..n]| < |v|; }
  }

  lemma ScanGives(w: string, t: string, tag: string, r: string)
    requires ClosingTag(tag) && t == w + (tag + r)
    ensures var n := ScanTo(t, tag);
            n < |t| && n <= |w| && ((t[..n] == w && Advance(t[n..], |tag|) == At(r)) <==> NoTag(w, tag))
  {
    ScanToTag(w, tag, r);
    AtTheTag(t, w, tag, r);
  }

  lemma AtTheTag(t: string, w: string, tag: string, r: string)
    requires t == w + (tag + r)
    ensures t[..|w|] == w && Advance(t[|w|..], |tag|) == At(r)
  {
    assert t[|w|..] == tag + r && (tag + r)[|tag|..] == r;
  }

  /** A comment comes back exactly when it holds neither its own end tag nor a NUL. */
  lemma CommentRoundTrip(u: bool, s: string, v: string, r: string, e: Error)
    requires s == PrintBody(Comment(v), 0, STREAM) + r
    ensures ParseComment(u, s, e) == NodeResult(At(r), Comment(v), e) <==> NoTag(v, "-->") && NoNul(v)
  {
    var t := s[4..];
    WrappedShape(s, "<!--", UpToNul(v), "-->", r);
    EndsComment("-->");
    WrappedParse(v, t, "-->", r);
    CommentAfterTag(u, s, t, e);
  }

  lemma EndsComment(tag: string)
    requires tag == "-->"
    ensures ClosingTag(tag) && |tag| == 3
  {
  }

  lemma CommentAfterTag(u: bool, s: string, t: string, e: Error)
    requires "<!--" <= s && s[4..] == t
    ensures var n := ScanTo(t, "-->"); ParseComment(u, s, e) == NodeResult(Advance(t[n..], 3), Comment(t[..n]), e)
  {
    assert s[0] == '<' && SkipWhiteSpace(u, At(s)) == At(s);
  }

  lemma CDataRoundTrip(s: string, v: string, r: string, e: Error)
    requires s == PrintBody(Text(v, true), 0, STREAM) + r
    ensures ParseCData(s, e) == NodeResult(At(r), Text(v, true), e) <==> NoTag(v, "]]>") && NoNul(v)
  {
    var t := s[9..];
    WrappedShape(s, "<![CDATA[", UpToNul(v), "]]>", r);
    WrappedParse(v, t, "]]>", r);
    CDataAfterTag(s, t, e);
  }

  lemma CDataAfterTag(s: string, t: string, e: Error)
    requires "<![CDATA[" <= s && s[9..] == t
    ensures var n := ScanTo(t, "]]>"); ParseCData(s, e) == NodeResult(Advance(t[n..], 3), Text(t[..n], true), e)
  {
  }

  lemma NoTagOfOne(v: string)
    ensures NoTag(v, ">") <==> '>' !in v
  {
    if '>' !in v {
      forall i | 0 <= i < |v| ensures !(">" <= v[i..]) { assert v[i..][0] == v[i] && v[i] in v; }
    } else {
      var i :| 0 <= i < |v| && v[i] == '>';
      assert ">" <= v[i..];
    }
  }

  lemma UnknownRoundTrip(u: bool, s: string, v: string, r: string, e: Error)
    requires s == PrintBody(Unknown(v), 0, STREAM) + r
    ensures ParseUnknown(u, s, e) == NodeResult(At(r), Unknown(v), e) <==> '>' !in v && NoNul(v)
  {
    var t := s[1..];
    WrappedShape(s, "<", UpToNul(v), ">", r);
    WrappedParse(v, t, ">", r);
    NoTagOfOne(v);
    UnknownAfterTag(u, s, t, e);
  }

  lemma UnknownAfterTag(u: bool, s: string, t: string, e: Error)
    requires "<" <= s && s[1..] == t && ScanTo(t, ">") < |t|
    ensures var n := ScanTo(t, ">"); ParseUnknown(u, s, e) == NodeResult(Advance(t[n..], 1), Unknown(t[..n]), e)
  {
    UnknownTaken(u, s, ScanTo(t, ">"), e);
    AdvanceOne(t, ScanTo(t, ">"));
  }

  lemma UnknownTaken(u: bool, s: string, n: nat, e: Error)
    requires s != "" && s[0] == '<' && n == ScanTo(s[1..], ">")
    ensures ParseUnknown(u, s, e)
         == NodeResult(At(if n < |s[1..]| then s[1..][n + 1..] else ""), Unknown(s[1..][..n]), e)
  {
    assert SkipWhiteSpace(u, At(s)) == At(s);
  }

  lemma AdvanceOne(t: string, n: nat)
    requires n < |t|
    ensures Advance(t[n..], 1) == At(t[n + 1..])
  {
  }

  // ---- Attributes ----

  lemma {:induction false} EncodeName(name: string)
    requires forall c <- name :: IsNameChar(c)
    ensures Encode(name) == name
  {
    if name != "" {
      assert name[0] in name;
      assert forall c <- name[1..] :: c in name;
      EncodeName(name[1..]);
      assert EncodeChar(name[0]) == [name[0]];
      assert name == [name[0]] + name[1..];
    }
  }

  lemma NameIsAll(name: string)
    requires ValidName(name)
    ensures UpToNul(name) == name
  {
    UpToNulIsAll(name);
  }

  lemma NameStartIsText(c: char)
    requires IsNameStart(c)
    ensures !IsWhiteSpace(c) && c != '/' && c != '>' && c != '<' && c != '='
  {
  }

  /** White space skipping stops at a readable name in front of an ASCII character. */
  lemma NameNotSkipped(u: bool, name: string, r: string)
    requires ReadableName(u, name) && (r != "" ==> r[0] as int < 0x80)
    ensures !Skips(u, name + r) && (name + r)[0] == name[0] && IsNameStart(name[0])
    ensures name[0] != '/' && name[0] != '>' && name[0] != '<' && name[0] != '='
  {
    NameStartIsText(name[0]);
    var s := name + r;
    assert forall i | 0 <= i < |name| :: s[i] == name[i];
    assert r != "" ==> s[|name|] == r[0];
  }

  /** The head of an attribute: a name, an equals sign and an opening quote. */
  lemma AttributeHead(u: bool, s: string, name: string, quote: string, r: string, e: Error)
    requires s == name + ("=" + (quote + r)) && ReadableName(u, name) && (quote == "\"" || quote == "'")
    ensures ParseAttribute(u, s, e) == ParseValue(u, quote + r, name, e)
    ensures !Skips(u, s) && s[0] != '/' && s[0] != '>'
  {
    var q := "=" + (quote + r);
    NameNotSkipped(u, name, q);
    ReadNameConcat(name, q);
    assert SkipWhiteSpace(u, At(s)) == At(s);
    assert q[0] == '=' && SkipWhiteSpace(u, At(q)) == At(q);
    assert q[1..] == quote + r && (quote + r)[0] == quote[0];
    assert SkipWhiteSpace(u, At(q[1..])) == At(quote + r);
  }

  /** A quoted value comes back, up to what follows the closing quote, exactly if its text does. */
  lemma QuotedValue(u: bool, name: string, v: string, quote: string, text: string, r: string, e: Error)
    requires quote == "\"" || quote == "'"
    ensures ParseValue(u, quote + text, name, e) == AttributeResult(At(r), Attribute(name, v), e)
            <==> ReadText(u, At(text), quote, false) == TextResult(At(quote + r), v)
  {
    var t := ReadText(u, At(text), quote, false);
    QuotedStops(u, name, quote, text, t, e);
    StopsAtTag(u, text, quote, "");
    BehindQuote(t.stop, quote, r);
  }

  lemma QuotedStops(u: bool, name: string, quote: string, text: string, t: TextResult, e: Error)
    requires (quote == "\"" || quote == "'") && t == ReadText(u, At(text), quote, false)
    ensures ParseValue(u, quote + text, name, e)
         == AttributeResult(if t.stop.At? then Advance(t.stop.rest, 1) else t.stop, Attribute(name, t.text), e)
  {
    var s := quote + text;
    assert s[1..] == text && [s[0]] == quote;
  }

  /** Standing at the quote and standing behind it. */
  lemma BehindQuote(stop: Ptr, quote: string, r: string)
    requires |quote| == 1 && (stop.At? ==> stop.rest == "" || quote <= stop.rest)
    ensures (if stop.At? then Advance(stop.rest, 1) else stop) == At(r) <==> stop == At(quote + r)
  {
    assert (quote + r)[1..] == r;
    if stop.At? && stop.rest != "" { assert stop.rest == quote + stop.rest[1..]; }
  }

  /** A printed attribute with a readable name and without a reference is parsed back exactly if its value
      is read whole. */
  lemma AttributeRoundTrip(u: bool, a: Attribute, s: string, r: string, e: Error)
    requires ReadableName(u, a.name) && NoHexRef(a.value)
    requires s == PrintAttribute(a) + r
    ensures ParseAttribute(u, s, e) == AttributeResult(At(r), a, e) <==> ReadsWhole(u, a.value)
    ensures s != "" && !Skips(u, s) && s[0] != '/' && s[0] != '>'
  {
    var quote := if '"' in a.value then "'" else "\"";
    EncodeName(a.name);
    var v := Encode(a.value) + (quote + r);
    assert s == a.name + ("=" + (quote + v)) by {
      Assoc(a.name, "=" + (quote + (Encode(a.value) + quote)), r);
      Assoc("=", quote + (Encode(a.value) + quote), r);
      Assoc(quote, Encode(a.value) + quote, r);
      Assoc(Encode(a.value), quote, r);
    }
    AttributeHead(u, s, a.name, quote, v, e);
    QuotedValue(u, a.name, a.value, quote, v, r, e);
    EscapeInverse(u, a.value, quote, r);
  }

  lemma FindFresh(attrs: seq<Attribute>, name: string)
    requires forall a <- attrs :: a.name != name
    ensures FindAttribute(attrs, name) == |attrs|
  {
    forall i | 0 <= i < |attrs| ensures attrs[i].name != name { assert attrs[i] in attrs; }
  }

  /** One turn of the attribute loop. */
  lemma AttributeStep(u: bool, a: Attribute, before: seq<Attribute>, s: string, after: string, name: string, e: Error)
    requires PlainAttribute(u, a) && forall b <- before :: b.name != a.name
    requires s == " " + (PrintAttribute(a) + after) && after != ""
    ensures ParseAttributes(u, s, name, before, e) == ParseAttributes(u, after, name, before + [a], e)
  {
    var t := PrintAttribute(a) + after;
    AttributeRoundTrip(u, a, t, after, e);
    FindFresh(before, a.name);
    AttributeTaken(u, a, before, s, t, after, name, e);
  }

  lemma AttributeTaken(u: bool, a: Attribute, before: seq<Attribute>, s: string, t: string, after: string, name: string,
                       e: Error)
    requires s == " " + t && t != "" && !Skips(u, t) && t[0] != '/' && t[0] != '>' && after != ""
    requires ParseAttribute(u, t, e) == AttributeResult(At(after), a, e) && FindAttribute(before, a.name) == |before|
    ensures ParseAttributes(u, s, name, before, e) == ParseAttributes(u, after, name, before + [a], e)
  {
    assert s[0] == ' ' && s[1..] == t && DropWhiteSpace(u, s) == DropWhiteSpace(u, t) == t;
  }

  lemma FreshName(attrs: seq<Attribute>, i: nat)
    requires i < |attrs| && UniqueNames(attrs)
    ensures forall b <- attrs[..i] :: b.name != attrs[i].name
  {
  }

  lemma PrintAttributesHead(attrs: seq<Attribute>, i: nat)
    requires i < |attrs|
    ensures PrintAttributes(attrs[i..]) == " " + (PrintAttribute(attrs[i]) + PrintAttributes(attrs[i + 1..]))
    ensures attrs[..i] + [attrs[i]] == attrs[..i + 1] && attrs[i] in attrs
  {
    assert attrs[i..][1..] == attrs[i + 1..];
  }

  /** The attribute loop reads the attributes from i on, and goes on with what follows them. */
  lemma {:induction false} AttributesRoundTrip(u: bool, attrs: seq<Attribute>, i: nat, name: string, tail: string,
                                               e: Error)
    requires i <= |attrs| && UniqueNames(attrs) && (forall a <- attrs :: PlainAttribute(u, a)) && tail != ""
    ensures ParseAttributes(u, PrintAttributes(attrs[i..]) + tail, name, attrs[..i], e)
         == ParseAttributes(u, tail, name, attrs, e)
    decreases |attrs| - i
  {
    if i == |attrs| {
      assert attrs[..i] == attrs && "" + tail == tail;
    } else {
      var a, more := attrs[i], PrintAttributes(attrs[i + 1..]);
      PrintAttributesHead(attrs, i);
      Assoc(" ", PrintAttribute(a) + more, tail);
      Assoc(PrintAttribute(a), more, tail);
      FreshName(attrs, i);
      AttributeStep(u, a, attrs[..i], PrintAttributes(attrs[i..]) + tail, more + tail, name, e);
      AttributesRoundTrip(u, attrs, i + 1, name, tail, e);
    }
  }

  // ---- Declarations ----

  /** A field is read back exactly for these values. */
  lemma FieldValue(u: bool, key: string, v: string, s: string, r: string, e: Error)
    requires s == key + ("=" + ("\"" + (v + ("\"" + r)))) && ReadableName(u, key)
    ensures ParseAttribute(u, s, e) == AttributeResult(At(r), Attribute(key, v), e) <==> FieldReads(u, v)
  {
    AttributeHead(u, s, key, "\"", v + ("\"" + r), e);
    QuotedValue(u, key, v, "\"", v + ("\"" + r), r, e);
    FieldInverse(u, v, r);
  }

  /** What a declaration field turns the loop's variables into. */
  lemma FieldRoundTrip(u: bool, key: string, v: string, s: string, r: string, version: string, encoding: string,
                       standalone: string, e: Error)
    requires key == "version" || key == "encoding" || key == "standalone"
    requires s == PrintField(key, v) + r && PlainField(u, v) && FieldStart(r)
    requires v == "" ==>
      (if key == "version" then version else if key == "encoding" then encoding else standalone) == ""
    ensures DeclarationFields(u, At(s), version, encoding, standalone, e)
         == DeclarationFields(u, At(r), if key == "version" then v else version,
                              if key == "encoding" then v else encoding,
                              if key == "standalone" then v else standalone, e)
  {
    if v == "" {
      assert s == r;
    } else {
      FieldShape(key, v, s, r);
      FieldValue(u, key, v, s, " " + r, NoError);
      KeyRecognised(u, key, s);
      SpaceBeforeField(u, r, if key == "version" then v else version, if key == "encoding" then v else encoding,
                       if key == "standalone" then v else standalone, e);
    }
  }

  lemma FieldShape(key: string, v: string, s: string, r: string)
    requires v != "" && s == PrintField(key, v) + r
    ensures s == key + ("=" + ("\"" + (v + ("\"" + (" " + r)))))
  {
    Assoc(key, "=\"" + (v + "\" "), r);
    Assoc("=\"", v + "\" ", r);
    Assoc(v, "\" ", r);
    Assoc("=", "\"", v + ("\" " + r));
    Assoc("\"", " ", r);
  }

  lemma KeyRecognised(u: bool, key: string, s: string)
    requires key == "version" || key == "encoding" || key == "standalone"
    requires key <= s
    ensures s[0] != '>' && DropWhiteSpace(u, s) == s && PrefixIgnoringCase(key, s)
    ensures key != "version" ==> !PrefixIgnoringCase("version", s)
    ensures key == "standalone" ==> !PrefixIgnoringCase("encoding", s)
  {
    assert forall i | 0 <= i < |key| :: s[i] == key[i];
    assert key != "version" ==> ToLower("version"[0]) != ToLower(s[0]);
    assert key == "standalone" ==> ToLower("encoding"[0]) != ToLower(s[0]);
  }

  lemma SpaceBeforeField(u: bool, r: string, version: string, encoding: string, standalone: string, e: Error)
    requires FieldStart(r)
    ensures DeclarationFields(u, At(" " + r), version, encoding, standalone, e)
         == DeclarationFields(u, At(r), version, encoding, standalone, e)
  {
    assert (" " + r)[1..] == r && DropWhiteSpace(u, " " + r) == r;
  }

  lemma NoKeyword(s: string)
    requires s != "" && s[0] == '?'
    ensures !PrefixIgnoringCase("version", s) && !PrefixIgnoringCase("encoding", s)
    ensures !PrefixIgnoringCase("standalone", s)
  {
    assert ToLower(s[0]) == '?' && ToLower("version"[0]) != '?' && ToLower("encoding"[0]) != '?';
    assert ToLower("standalone"[0]) != '?';
  }

  lemma DeclarationEnd(u: bool, s: string, r: string, version: string, encoding: string, standalone: string, e: Error)
    requires s == "?>" + r
    ensures DeclarationFields(u, At(s), version, encoding, standalone, e)
         == NodeResult(At(r), Declaration(version, encoding, standalone), e)
  {
    assert s[0] == '?' && s[1] == '>' && DropWhiteSpace(u, s) == s;
    assert TokenLength(s[1..]) == 0 && TokenLength(s) == 1;
    var t := s[1..];
    assert t == ">" + r && t[1..] == r;
    assert DeclarationFields(u, At(t), version, encoding, standalone, e)
        == NodeResult(At(r), Declaration(version, encoding, standalone), e);
    NoKeyword(s);
  }

  lemma DeclarationRoundTrip(u: bool, s: string, d: Node, r: string, e: Error)
    requires d.Declaration? && WellFormed(u, d) && s == PrintBody(d, 0, STREAM) + r
    ensures ParseDeclaration(u, s, e) == NodeResult(At(r), d, e)
  {
    var end := "?>" + r;
    var s3 := PrintField("standalone", d.standalone) + end;
    var s2 := PrintField("encoding", d.encoding) + s3;
    var s1 := PrintField("version", d.version) + s2;
    DeclarationShape(u, s, d, r, s1, s2, s3, end);
    SpaceBeforeField(u, s1, "", "", "", e);
    FieldRoundTrip(u, "version", d.version, s1, s2, "", "", "", e);
    FieldRoundTrip(u, "encoding", d.encoding, s2, s3, d.version, "", "", e);
    FieldRoundTrip(u, "standalone", d.standalone, s3, end, d.version, d.encoding, "", e);
    DeclarationEnd(u, end, r, d.version, d.encoding, d.standalone, e);
  }

  /** Another field or the end of the declaration: a lower-case letter or a question mark. */
  predicate FieldStart(s: string) {
    s != "" && !IsWhiteSpace(s[0]) && s[0] != '>' && s[0] as int < 0x80
  }

  lemma FieldStarts(key: string, v: string, r: string)
    requires FieldStart(key) && FieldStart(r)
    ensures FieldStart(PrintField(key, v) + r)
  {
    if v == "" { assert PrintField(key, v) + r == r; }
  }

  lemma DeclarationShape(u: bool, s: string, d: Node, r: string, s1: string, s2: string, s3: string, end: string)
    requires d.Declaration? && s == PrintBody(d, 0, STREAM) + r && end == "?>" + r
    requires s3 == PrintField("standalone", d.standalone) + end
    requires s2 == PrintField("encoding", d.encoding) + s3
    requires s1 == PrintField("version", d.version) + s2
    ensures s == "<?xml " + s1 && s[5..] == " " + s1 && PrefixIgnoringCase("<?xml", s)
    ensures FieldStart(end) && FieldStart(s3) && FieldStart(s2) && FieldStart(s1)
    ensures SkipWhiteSpace(u, At(s)) == At(s)
  {
    var v, c := PrintField("version", d.version), PrintField("encoding", d.encoding);
    var t := PrintField("standalone", d.standalone);
    Assoc("<?xml ", v + (c + (t + "?>")), r);
    Assoc(v, c + (t + "?>"), r);
    Assoc(c, t + "?>", r);
    Assoc(t, "?>", r);
    FieldStarts("standalone", d.standalone, end);
    FieldStarts("encoding", d.encoding, s3);
    FieldStarts("version", d.version, s2);
    assert s[..6] == "<?xml ";
    assert forall i | 0 <= i < 5 :: s[i] == "<?xml "[i];
  }

  // ---- Nodes ----

  lemma PrefixNeedsClose(v: string, r: string, tag: string)
    requires '>' !in tag
    ensures tag <= "<" + (v + (">" + r)) <==> tag <= "<" + (v + ">")
    ensures PrefixIgnoringCase(tag, "<" + (v + (">" + r))) <==> PrefixIgnoringCase(tag, "<" + (v + ">"))
  {
    var long, short := "<" + (v + (">" + r)), "<" + (v + ">");
    assert long == short + r;
    assert forall i | 0 <= i < |short| :: long[i] == short[i];
    if |tag| >= |short| {
      assert short[|short| - 1] == '>' && tag[|short| - 1] in tag;
    }
  }

  lemma UnknownStaysUnknown(v: string, r: string)
    requires Identify("<" + (v + ">")) == UnknownKind
    ensures Identify("<" + (v + (">" + r))) == UnknownKind
  {
    PrefixNeedsClose(v, r, "<?xml");
    PrefixNeedsClose(v, r, "<!--");
    PrefixNeedsClose(v, r, "<![CDATA[");
    PrefixNeedsClose(v, r, "<!");
    var long, short := "<" + (v + (">" + r)), "<" + (v + ">");
    assert |short| > 1 && long[1] == short[1] by { assert long == short + r; }
  }

  lemma KindByPrefix(s: string)
    ensures "<!--" <= s ==> s[0] == '<' && Identify(s) == CommentKind && !("</" <= s)
    ensures "<![CDATA[" <= s ==> s[0] == '<' && Identify(s) == CDataKind && !("</" <= s)
    ensures |s| > 1 && s[0] == '<' && IsNameStart(s[1]) ==> Identify(s) == ElementKind && !("</" <= s)
  {
    if |s| > 1 && s[0] == '<' {
      assert "<?xml"[1] == '?' && "<!--"[1] == '!' && "</"[1] == '/';
      if "<!--" <= s { assert s[1] == "<!--"[1] && s[2] == "<!--"[2]; }
      if "<![CDATA[" <= s { assert s[1] == "<![CDATA["[1] && s[2] == "<![CDATA["[2]; }
    }
  }

  lemma LeafRoundTrip(u: bool, n: Node, s: string, r: string, e: Error)
    requires WellFormed(u, n) && !n.Element? && !IsPlainText(n) && s == PrintBody(n, 0, STREAM) + r
    ensures s != "" && s[0] == '<' && ParseNode(u, s, e) == NodeResult(At(r), n, e)
    ensures !LooksLikeEndTag(n) ==> !("</" <= s)
  {
    match n
    case Text(v, _) =>
      WrappedShape(s, "<![CDATA[", UpToNul(v), "]]>", r);
      KindByPrefix(s);
      CDataRoundTrip(s, v, r, e);
    case Comment(v) =>
      WrappedShape(s, "<!--", UpToNul(v), "-->", r);
      KindByPrefix(s);
      CommentRoundTrip(u, s, v, r, e);
    case Declaration(_, _, _) =>
      DeclarationKindOf(u, n, s, r);
      DeclarationRoundTrip(u, s, n, r, e);
    case Unknown(v) =>
      UnknownKindOf(v, s, r);
      UnknownRoundTrip(u, s, v, r, e);
  }

  lemma DeclarationKindOf(u: bool, n: Node, s: string, r: string)
    requires n.Declaration? && s == PrintBody(n, 0, STREAM) + r
    ensures s != "" && s[0] == '<' && Identify(s) == DeclarationKind && !("</" <= s)
  {
    var s3 := PrintField("standalone", n.standalone) + ("?>" + r);
    var s2 := PrintField("encoding", n.encoding) + s3;
    DeclarationShape(u, s, n, r, PrintField("version", n.version) + s2, s2, s3, "?>" + r);
    assert s[0] == '<' && s[1] == '?';
  }

  lemma UnknownKindOf(v: string, s: string, r: string)
    requires WellFormed(false, Unknown(v)) && s == PrintBody(Unknown(v), 0, STREAM) + r
    ensures s != "" && s[0] == '<' && Identify(s) == UnknownKind
    ensures !LooksLikeEndTag(Unknown(v)) ==> !("</" <= s)
  {
    UpToNulIsAll(v);
    assert s == "<" + (v + (">" + r)) by { Assoc("<", v + ">", r); Assoc(v, ">", r); }
    UnknownStaysUnknown(v, r);
    if "</" <= s { assert s[1] == '/' && s[1] == (v + ">")[0]; }
  }

  /** What a node's text looks like from outside: it starts a tag, and no end tag. */
  lemma BodyStarts(u: bool, n: Node, depth: nat, f: Format, r: string)
    requires WellFormed(u, n) && !IsPlainText(n) && !LooksLikeEndTag(n)
    ensures var s := PrintBody(n, depth, f) + r; s != "" && s[0] == '<' && !("</" <= s)
  {
    var s := PrintBody(n, depth, f) + r;
    if n.Element? {
      NameIsAll(n.name);
      assert s[0] == '<' && s[1] == n.name[0];
      KindByPrefix(s);
    } else {
      LeafRoundTrip(u, n, s, r, NoError);
    }
  }

  /** What follows the name of a printed element. */
  function AfterName(n: Node, depth: nat, f: Format, r: string): string
    requires n.Element?
  {
    if n.children == [] then " />" + r
    else if SimpleText(n.children) then ">" + (Encode(n.children[0].value) + (EndTag(n.name) + r))
    else ">" + (f.lineBreak + (PrintNodes(n.children, depth + 1, f) + (Indent(depth, f) + (EndTag(n.name) + r))))
  }

  lemma ElementShape(n: Node, depth: nat, f: Format, s: string, r: string)
    requires n.Element? && s == PrintBody(n, depth, f) + r
    ensures s == "<" + (UpToNul(n.name) + (PrintAttributes(Visible(n.attributes)) + AfterName(n, depth, f, r)))
  {
    var a := PrintAttributes(Visible(n.attributes));
    var tail := if n.children == [] then " />"
                else if SimpleText(n.children) then ">" + (Encode(n.children[0].value) + EndTag(n.name))
                else ">" + (f.lineBreak + (PrintNodes(n.children, depth + 1, f) + (Indent(depth, f) + EndTag(n.name))));
    Assoc("<", UpToNul(n.name) + (a + tail), r);
    Assoc(UpToNul(n.name), a + tail, r);
    Assoc(a, tail, r);
    if n.children == [] {
    } else if SimpleText(n.children) {
      Assoc(">", Encode(n.children[0].value) + EndTag(n.name), r);
      Assoc(Encode(n.children[0].value), EndTag(n.name), r);
    } else {
      var kids := PrintNodes(n.children, depth + 1, f);
      Assoc(">", f.lineBreak + (kids + (Indent(depth, f) + EndTag(n.name))), r);
      Assoc(f.lineBreak, kids + (Indent(depth, f) + EndTag(n.name)), r);
      Assoc(kids, Indent(depth, f) + EndTag(n.name), r);
      Assoc(Indent(depth, f), EndTag(n.name), r);
    }
  }

  lemma AllVisible(u: bool, attrs: seq<Attribute>)
    requires forall a <- attrs :: PlainAttribute(u, a)
    ensures Visible(attrs) == attrs
  {
    VisibleIsAll(attrs);
    forall i | 1 <= i < |attrs| ensures !BlankAttribute(attrs[i]) { assert attrs[i] in attrs; }
  }

  /** The name read, the parser stands behind it. */
  lemma ElementName(u: bool, s: string, name: string, t: string, after: string, e: Error)
    requires ReadableName(u, name) && after != "" && (after[0] == ' ' || after[0] == '>')
    requires s == "<" + t && t == name + after
    ensures s[0] == '<' && ParseNode(u, s, e) == ParseAttributes(u, after, name, [], e)
  {
    NameNotSkipped(u, name, after);
    assert s[0] == '<' && s[1..] == t && s[1] == t[0] == name[0];
    KindByPrefix(s);
    assert SkipWhiteSpace(u, At(s)) == At(s) && SkipWhiteSpace(u, At(t)) == At(t);
    ReadNameConcat(name, after);
  }

  /** Name and attributes read, the parser stands behind the attributes. */
  lemma ElementHead(u: bool, n: Node, s: string, tail: string, e: Error)
    requires n.Element? && WellFormed(u, n) && tail != "" && (tail[0] == ' ' || tail[0] == '>')
    requires s == "<" + (n.name + (PrintAttributes(Visible(n.attributes)) + tail))
    ensures s[0] == '<' && ParseNode(u, s, e) == ParseAttributes(u, tail, n.name, n.attributes, e)
  {
    var after := PrintAttributes(Visible(n.attributes)) + tail;
    assert after != "" && (after[0] == ' ' || after[0] == '>');
    ElementName(u, s, n.name, n.name + after, after, e);
    AllVisible(u, n.attributes);
    assert n.attributes[0..] == n.attributes && n.attributes[..0] == [];
    AttributesRoundTrip(u, n.attributes, 0, n.name, tail, e);
  }

  /** Children read, the element ends at its end tag. */
  lemma ElementTail(u: bool, n: Node, inside: string, r: string, e: Error)
    requires n.Element?
    requires ReadValue(u, At(inside), [], e) == NodesResult(At(EndTag(n.name) + r), n.children, e)
    ensures ParseAttributes(u, ">" + inside, n.name, n.attributes, e) == NodeResult(At(r), n, e)
  {
    var s := ">" + inside;
    assert s[0] == '>' && s[1..] == inside && DropWhiteSpace(u, s) == s;
    assert (EndTag(n.name) + r)[|EndTag(n.name)|..] == r;
  }

  lemma EmptyElementTail(u: bool, n: Node, r: string, e: Error)
    requires n.Element? && n.children == []
    ensures ParseAttributes(u, " />" + r, n.name, n.attributes, e) == NodeResult(At(r), n, e)
  {
    var s := " />" + r;
    assert s[0] == ' ' && s[1] == '/' && s[2] == '>' && s[1..][2..] == r;
    assert DropWhiteSpace(u, s) == s[1..];
  }

  lemma PlainTextRead(u: bool, v: string, w: string, t: string, s: string)
    requires PlainText(u, v) && AllWhiteSpace(w) && t != "" && t[0] == '<' && s == Encode(v) + (w + t)
    ensures ReadText(u, At(s), "<", true) == TextResult(At(t), v)
  {
    assert t == "<" + t[1..] && "" + s == s;
    CondensedInverse(u, v, "", w, "<", t[1..]);
  }

  lemma PlainTextStarts(u: bool, v: string, after: string, s: string)
    requires PlainText(u, v) && s == Encode(v) + after
    ensures s != "" && !Skips(u, s) && s[0] != '<'
  {
    EncodeNotSkipped(u, v, after);
    assert s[0] == Encode(v)[0];
  }

  /** ReadValue at one plain text, which ends where the next tag starts. */
  lemma TextStep(u: bool, v: string, w: string, t: string, nodes: seq<Node>, e: Error)
    requires PlainText(u, v) && AllWhiteSpace(w) && t != "" && t[0] == '<'
    ensures DropWhiteSpace(u, w + t) == t
    ensures ReadValue(u, At(PrintBody(Text(v, false), 0, STREAM) + (w + t)), nodes, e)
         == ReadValue(u, At(t), nodes + [Text(v, false)], e)
  {
    var s := Encode(v) + (w + t);
    DropWhiteSpaceConcat(u, w, t);
    PlainTextRead(u, v, w, t, s);
    PlainTextStarts(u, v, w + t, s);
    TextTaken(u, s, v, t, nodes, e);
  }

  lemma TextTaken(u: bool, s: string, v: string, t: string, nodes: seq<Node>, e: Error)
    requires s != "" && !Skips(u, s) && s[0] != '<' && !Blank(v)
    requires ReadText(u, At(s), "<", true) == TextResult(At(t), v)
    ensures ReadValue(u, At(s), nodes, e) == ReadValue(u, At(t), nodes + [Text(v, false)], e)
  {
    assert SkipWhiteSpace(u, At(s)) == At(s);
    assert ParseText(u, s) == TextResult(At(t), v);
  }

  lemma ReadAtEndTag(u: bool, close: string, acc: seq<Node>, e: Error)
    requires "</" <= close
    ensures DropWhiteSpace(u, close) == close
    ensures ReadValue(u, At(close), acc, e) == NodesResult(At(close), acc, e)
  {
    assert close[0] == '<' && SkipWhiteSpace(u, At(close)) == At(close);
  }

  lemma ReadNodeStep(u: bool, t: string, y: string, n: Node, acc: seq<Node>, e: Error)
    requires t != "" && t[0] == '<' && !("</" <= t) && ParseNode(u, t, e) == NodeResult(At(y), n, e)
    requires DropWhiteSpace(u, y) != ""
    ensures ReadValue(u, At(t), acc, e) == ReadValue(u, At(DropWhiteSpace(u, y)), acc + [n], e)
  {
    assert SkipWhiteSpace(u, At(t)) == At(t);
    ReadValueSkips(u, y, acc + [n], e);
  }

  /** An element, with everything below it, is parsed back. */
  lemma {:induction false} ElementRoundTrip(u: bool, n: Node, depth: nat, f: Format, s: string, r: string, e: Error)
    requires n.Element? && WellFormed(u, n) && Layout(f) && s == PrintBody(n, depth, f) + r
    ensures s[0] == '<' && ParseNode(u, s, e) == NodeResult(At(r), n, e)
    decreases n, 0
  {
    ElementShape(n, depth, f, s, r);
    NameIsAll(n.name);
    ElementHead(u, n, s, AfterName(n, depth, f, r), e);
    var close := EndTag(n.name) + r;
    if n.children == [] {
      EmptyElementTail(u, n, r, e);
    } else {
      var inside := if SimpleText(n.children) then Encode(n.children[0].value) + close
                    else f.lineBreak + (PrintNodes(n.children, depth + 1, f) + (Indent(depth, f) + close));
      ChildrenRoundTrip(u, n, depth, f, inside, close, e);
      ElementTail(u, n, inside, r, e);
    }
  }

  /** The children of an element, up to the end tag that follows them. */
  lemma {:induction false} ChildrenRoundTrip(u: bool, n: Node, depth: nat, f: Format, inside: string, close: string,
                                             e: Error)
    requires n.Element? && n.children != [] && WellFormed(u, n) && Layout(f) && "</" <= close
    requires inside == if SimpleText(n.children) then Encode(n.children[0].value) + close
                       else f.lineBreak + (PrintNodes(n.children, depth + 1, f) + (Indent(depth, f) + close))
    ensures ReadValue(u, At(inside), [], e) == NodesResult(At(close), n.children, e)
    decreases n.children, 2
  {
    ReadAtEndTag(u, close, n.children, e);
    if SimpleText(n.children) {
      var v := n.children[0].value;
      assert close[0] == '<' && n.children[0] == Text(v, false) && WellFormed(u, n.children[0]);
      assert "" + close == close;
      TextStep(u, v, "", close, [], e);
      assert [] + [Text(v, false)] == n.children;
    } else {
      var w := Indent(depth, f);
      var y := PrintNodes(n.children, depth + 1, f) + (w + close);
      IndentIsWhiteSpace(depth, f);
      NodesRoundTrip(u, n.children, depth + 1, f, w, close, y, [], e);
      DropAfterSpace(u, f.lineBreak, y);
      ReadValueSkips(u, inside, [], e);
      assert [] + n.children == n.children;
    }
  }

  /** Where printed nodes start, once white space is skipped. */
  lemma NodesStart(u: bool, nodes: seq<Node>, depth: nat, f: Format, w: string, close: string)
      returns (space: string, t: string)
    requires WellFormedChildren(u, nodes) && Layout(f) && AllWhiteSpace(w) && "</" <= close
    ensures AllWhiteSpace(space) && PrintNodes(nodes, depth, f) + (w + close) == space + t
    ensures t == DropWhiteSpace(u, PrintNodes(nodes, depth, f) + (w + close))
    ensures t != "" && (nodes == [] || !IsPlainText(nodes[0]) ==> t[0] == '<')
    ensures nodes != [] ==>
              t == PrintBody(nodes[0], depth, f) + (f.lineBreak + (PrintNodes(nodes[1..], depth, f) + (w + close)))
  {
    if nodes == [] {
      space, t := w, close;
      assert "" + (w + close) == w + close;
      DropWhiteSpaceConcat(u, w, close);
    } else {
      var n, rest := nodes[0], f.lineBreak + (PrintNodes(nodes[1..], depth, f) + (w + close));
      space, t := Indent(depth, f), PrintBody(n, depth, f) + rest;
      Assoc(space, PrintBody(n, depth, f) + (f.lineBreak + PrintNodes(nodes[1..], depth, f)), w + close);
      Assoc(PrintBody(n, depth, f), f.lineBreak + PrintNodes(nodes[1..], depth, f), w + close);
      Assoc(f.lineBreak, PrintNodes(nodes[1..], depth, f), w + close);
      IndentIsWhiteSpace(depth, f);
      if IsPlainText(n) { EncodeNotSkipped(u, n.value, rest); } else { BodyStarts(u, n, depth, f, rest); }
      DropWhiteSpaceConcat(u, space, t);
    }
  }

  lemma AppendFirst(acc: seq<Node>, nodes: seq<Node>)
    requires nodes != []
    ensures acc + [nodes[0]] + nodes[1..] == acc + nodes
  {
  }

  /** Reading printed nodes back one by one, up to the end tag. */
  lemma {:induction false} NodesRoundTrip(u: bool, nodes: seq<Node>, depth: nat, f: Format, w: string, close: string,
                                          s: string, acc: seq<Node>, e: Error)
    requires WellFormedChildren(u, nodes) && Layout(f) && AllWhiteSpace(w) && "</" <= close
    requires s == PrintNodes(nodes, depth, f) + (w + close)
    ensures DropWhiteSpace(u, s) != ""
    ensures ReadValue(u, At(DropWhiteSpace(u, s)), acc, e) == NodesResult(At(close), acc + nodes, e)
    decreases nodes, 1
  {
    var _, t := NodesStart(u, nodes, depth, f, w, close);
    if nodes == [] {
      assert s == w + close && acc + nodes == acc;
      DropAfterSpace(u, w, close);
      ReadAtEndTag(u, close, acc, e);
    } else {
      var n, tail := nodes[0], PrintNodes(nodes[1..], depth, f) + (w + close);
      NodesRoundTrip(u, nodes[1..], depth, f, w, close, tail, acc + [n], e);
      AppendFirst(acc, nodes);
      DropAfterSpace(u, f.lineBreak, tail);
      if IsPlainText(n) {
        var space, t' := NodesStart(u, nodes[1..], depth, f, w, close);
        Assoc(f.lineBreak, space, t');
        TextStep(u, n.value, f.lineBreak + space, t', acc, e);
      } else {
        ChildStep(u, n, depth, f, f.lineBreak + tail, acc, e);
      }
    }
  }

  lemma {:induction false} ChildStep(u: bool, n: Node, depth: nat, f: Format, y: string, acc: seq<Node>, e: Error)
    requires WellFormed(u, n) && !IsPlainText(n) && !LooksLikeEndTag(n) && Layout(f) && DropWhiteSpace(u, y) != ""
    ensures ReadValue(u, At(PrintBody(n, depth, f) + y), acc, e) == ReadValue(u, At(DropWhiteSpace(u, y)), acc + [n], e)
    decreases n, 1
  {
    var t := PrintBody(n, depth, f) + y;
    BodyStarts(u, n, depth, f, y);
    if n.Element? { ElementRoundTrip(u, n, depth, f, t, y, e); } else { LeafRoundTrip(u, n, t, y, e); }
    ReadNodeStep(u, t, y, n, acc, e);
  }

  /** Why the condition on "/" is there: inside an element an unknown tag whose text starts with
      a slash ends the children, whatever follows. */
  lemma EndTagLookalikeStops(u: bool, v: string, y: string, acc: seq<Node>, e: Error)
    requires LooksLikeEndTag(Unknown(v))
    ensures var s := PrintBody(Unknown(v), 0, STREAM) + y;
            ReadValue(u, At(s), acc, e) == NodesResult(At(s), acc, e)
  {
    var s := PrintBody(Unknown(v), 0, STREAM) + y;
    assert s[0] == '<' && UpToNul(v)[0] == v[0] && s[1] == v[0];
    ReadAtEndTag(u, s, acc, e);
  }

  // ---- Documents ----

  lemma NodeRoundTrip(u: bool, n: Node, depth: nat, f: Format, s: string, r: string, e: Error)
    requires WellFormed(u, n) && !IsPlainText(n) && Layout(f) && s == PrintBody(n, depth, f) + r
    ensures s != "" && s[0] == '<' && ParseNode(u, s, e) == NodeResult(At(r), n, e)
  {
    if n.Element? { ElementRoundTrip(u, n, depth, f, s, r, e); } else { LeafRoundTrip(u, n, s, r, e); }
  }

  lemma DocumentStep(enc: Encoding, s: string, y: string, n: Node, acc: seq<Node>)
    requires s != "" && s[0] == '<' && ParseNode(enc.Utf8?, s, NoError) == NodeResult(At(y), n, NoError)
    ensures DocumentNodes(enc, At(s), acc, NoError)
         == DocumentNodes(After(enc, n), SkipWhiteSpace(After(enc, n).Utf8?, At(y)), acc + [n], NoError)
  {
  }

  predicate Complete(r: NodesResult, nodes: seq<Node>) {
    !r.p.Wild? && (r.p.At? ==> r.p.rest == "") && r.nodes == nodes && r.err == NoError
  }

  /** One top-level node, with the white space in front of it. */
  lemma TopLevelStep(enc: Encoding, n: Node, f: Format, w: string, s: string, y: string, acc: seq<Node>)
    requires WellFormed(enc.Utf8?, n) && !IsPlainText(n) && Layout(f) && AllWhiteSpace(w)
    requires s == w + (PrintBody(n, 0, f) + y)
    ensures s != "" && (w == "" ==> s[0] == '<')
    ensures DocumentNodes(enc, SkipWhiteSpace(enc.Utf8?, At(s)), acc, NoError)
         == DocumentNodes(After(enc, n), SkipWhiteSpace(After(enc, n).Utf8?, At(y)), acc + [n], NoError)
  {
    var t := PrintBody(n, 0, f) + y;
    NodeRoundTrip(enc.Utf8?, n, 0, f, t, y, NoError);
    DropWhiteSpaceConcat(enc.Utf8?, w, t);
    DocumentStep(enc, t, y, n, acc);
  }

  lemma TopLevelEnd(enc: Encoding, w: string, acc: seq<Node>)
    requires AllWhiteSpace(w)
    ensures Complete(DocumentNodes(enc, SkipWhiteSpace(enc.Utf8?, At(w)), acc, NoError), acc)
  {
    assert w + "" == w;
    DropWhiteSpaceConcat(enc.Utf8?, w, "");
  }

  lemma {:induction false} TopLevelRoundTrip(enc: Encoding, nodes: seq<Node>, f: Format, w: string, s: string,
                                             acc: seq<Node>)
    requires WellFormedTop(enc, nodes) && Layout(f) && AllWhiteSpace(w) && s == w + PrintNodes(nodes, 0, f)
    ensures Complete(DocumentNodes(enc, SkipWhiteSpace(enc.Utf8?, At(s)), acc, NoError), acc + nodes)
    ensures nodes != [] ==> s != "" && (w == "" ==> s[0] == '<')
    decreases |nodes|
  {
    if nodes == [] {
      assert s == w && acc + nodes == acc;
      TopLevelEnd(enc, w, acc);
    } else {
      var n, y := nodes[0], f.lineBreak + PrintNodes(nodes[1..], 0, f);
      assert Indent(0, f) + (PrintBody(n, 0, f) + y) == PrintBody(n, 0, f) + y;
      TopLevelStep(enc, n, f, w, s, y, acc);
      TopLevelRoundTrip(After(enc, n), nodes[1..], f, f.lineBreak, y, acc + [n]);
      AppendFirst(acc, nodes);
    }
  }

  // ---- The printed text is a C string ----

  lemma NoNulJoin(a: string, b: string)
    requires NoNul(a) && NoNul(b)
    ensures NoNul(a + b)
  {
  }

  lemma NoNulJoin3(a: string, b: string, c: string)
    requires NoNul(a) && NoNul(b) && NoNul(c)
    ensures NoNul(a + (b + c))
  {
    NoNulJoin(b, c);
    NoNulJoin(a, b + c);
  }

  lemma NoNulJoin5(a: string, b: string, c: string, d: string, e: string)
    requires NoNul(a) && NoNul(b) && NoNul(c) && NoNul(d) && NoNul(e)
    ensures NoNul(a + (b + (c + (d + e))))
  {
    NoNulJoin3(c, d, e);
    NoNulJoin3(a, b, c + (d + e));
  }

  lemma EncodedHasNoNul(v: string)
    requires NoHexRef(v)
    ensures NoNul(Encode(v))
  {
    EncodeHasNoMarkup(v);
  }

  lemma AttributeHasNoNul(u: bool, a: Attribute)
    requires PlainAttribute(u, a)
    ensures NoNul(PrintAttribute(a))
  {
    var quote := if '"' in a.value then "'" else "\"";
    EncodeName(a.name);
    EncodedHasNoNul(a.value);
    NoNulJoin5(a.name, "=", quote, Encode(a.value), quote);
  }

  lemma {:induction false} AttributesHaveNoNul(u: bool, attrs: seq<Attribute>)
    requires forall a <- attrs :: PlainAttribute(u, a)
    ensures NoNul(PrintAttributes(attrs))
  {
    if attrs != [] {
      assert attrs[0] in attrs && forall b <- attrs[1..] :: b in attrs;
      AttributeHasNoNul(u, attrs[0]);
      AttributesHaveNoNul(u, attrs[1..]);
      NoNulJoin3(" ", PrintAttribute(attrs[0]), PrintAttributes(attrs[1..]));
    }
  }

  lemma FieldHasNoNul(key: string, v: string)
    requires NoNul(key) && NoNul(v)
    ensures NoNul(PrintField(key, v))
  {
    NoNulJoin(v, "\" ");
    NoNulJoin3(key, "=\"", v + "\" ");
  }

  lemma {:induction false} BodyHasNoNul(u: bool, n: Node, depth: nat, f: Format)
    requires WellFormed(u, n) && Layout(f)
    ensures NoNul(PrintBody(n, depth, f))
    decreases n, 0
  {
    match n
    case Text(v, cdata) =>
      UpToNulIsAll(v);
      if cdata { NoNulJoin3("<![CDATA[", v, "]]>"); } else { EncodedHasNoNul(v); }
    case Comment(v) => UpToNulIsAll(v); NoNulJoin3("<!--", v, "-->");
    case Unknown(v) => UpToNulIsAll(v); NoNulJoin3("<", v, ">");
    case Declaration(v, e, s) =>
      FieldHasNoNul("version", v);
      FieldHasNoNul("encoding", e);
      FieldHasNoNul("standalone", s);
      NoNulJoin5("<?xml ", PrintField("version", v), PrintField("encoding", e), PrintField("standalone", s), "?>");
    case Element(name, attrs, children) =>
      AllVisible(u, attrs);
      AttributesHaveNoNul(u, attrs);
      InsideHasNoNul(u, n, depth, f);
      NoNulJoin3(name, PrintAttributes(attrs), AfterName(n, depth, f, ""));
      NoNulJoin("<", name + (PrintAttributes(attrs) + AfterName(n, depth, f, "")));
      NameIsAll(name);
      ElementShape(n, depth, f, PrintBody(n, depth, f) + "", "");
      assert PrintBody(n, depth, f) + "" == PrintBody(n, depth, f);
  }

  lemma {:induction false} InsideHasNoNul(u: bool, n: Node, depth: nat, f: Format)
    requires n.Element? && WellFormed(u, n) && Layout(f)
    ensures NoNul(AfterName(n, depth, f, ""))
    decreases n.children, 2
  {
    var close := EndTag(n.name) + "";
    NameIsAll(n.name);
    assert NoNul(close);
    if n.children == [] {
    } else if SimpleText(n.children) {
      assert WellFormed(u, n.children[0]);
      EncodedHasNoNul(n.children[0].value);
      NoNulJoin3(">", Encode(n.children[0].value), close);
    } else {
      IndentIsWhiteSpace(depth, f);
      NodesHaveNoNul(u, n.children, depth + 1, f);
      NoNulJoin5(">", f.lineBreak, PrintNodes(n.children, depth + 1, f), Indent(depth, f), close);
    }
  }

  lemma {:induction false} NodesHaveNoNul(u: bool, nodes: seq<Node>, depth: nat, f: Format)
    requires WellFormedChildren(u, nodes) && Layout(f)
    ensures NoNul(PrintNodes(nodes, depth, f))
    decreases nodes, 1
  {
    if nodes != [] {
      BodyHasNoNul(u, nodes[0], depth, f);
      NodesHaveNoNul(u, nodes[1..], depth, f);
      IndentIsWhiteSpace(depth, f);
      NoNulJoin(f.lineBreak, PrintNodes(nodes[1..], depth, f));
      NoNulJoin3(Indent(depth, f), PrintBody(nodes[0], depth, f), f.lineBreak + PrintNodes(nodes[1..], depth, f));
    }
  }

  /** The parser, which stops at the first NUL, gets all that was printed. */
  lemma {:induction false} DocumentHasNoNul(enc: Encoding, nodes: seq<Node>, f: Format)
    requires WellFormedTop(enc, nodes) && Layout(f)
    ensures NoNul(PrintDocument(nodes, f))
    decreases |nodes|
  {
    if nodes != [] {
      var rest := PrintNodes(nodes[1..], 0, f);
      BodyHasNoNul(enc.Utf8?, nodes[0], 0, f);
      DocumentHasNoNul(After(enc, nodes[0]), nodes[1..], f);
      NoNulJoin(f.lineBreak, rest);
      NoNulJoin3("", PrintBody(nodes[0], 0, f), f.lineBreak + rest);
    }
  }

  /** The printed form of a well-formed document, in any white space layout, parses without an error
      to the document that was printed, whatever encoding is passed to the parser. */
  lemma DocumentRoundTrip(enc: Encoding, nodes: seq<Node>, f: Format)
    requires WellFormedDocument(enc, nodes) && Layout(f)
    ensures ParseDocument(enc, PrintDocument(nodes, f)).nodes == nodes
    ensures ParseDocument(enc, PrintDocument(nodes, f)).err == NoError
    ensures NoNul(PrintDocument(nodes, f))
  {
    DocumentHasNoNul(enc, nodes, f);
    var s := PrintNodes(nodes, 0, f);
    assert "" + s == s && [] + nodes == nodes;
    TopLevelRoundTrip(enc, nodes, f, "", s, []);
    assert BYTE_ORDER_MARK[0] as int == 0xEF;
  }

  /** A byte order mark in front of a text tells that it is in UTF-8, and changes nothing else. */
  lemma MarkTellsUtf8(enc: Encoding, s: string)
    requires s != "" && !enc.Legacy?
    ensures var (marked, plain) := (ParseDocument(enc, BYTE_ORDER_MARK + s), ParseDocument(Utf8, s));
            marked.nodes == plain.nodes && marked.err == plain.err
  {
    var t := BYTE_ORDER_MARK + s;
    assert t[0] as int == 0xEF && t[1] as int == 0xBB && t[2] as int == 0xBF && t[3..] == s;
    assert DropWhiteSpace(true, t) == DropWhiteSpace(true, s);
  }

  /** So a printed document that uses UTF-8 comes back with a mark in front of it as it does without. */
  lemma MarkedDocumentRoundTrip(enc: Encoding, nodes: seq<Node>, f: Format)
    requires WellFormedDocument(Utf8, nodes) && Layout(f) && !enc.Legacy?
    ensures var r := ParseDocument(enc, BYTE_ORDER_MARK + PrintDocument(nodes, f)); r.nodes == nodes && r.err == NoError
  {
    DocumentRoundTrip(Utf8, nodes, f);
    MarkTellsUtf8(enc, PrintDocument(nodes, f));
  }

  // ---- Position tracking on printed documents ----

  /** What is left of a document is parsed without a call of Stamp at its last byte or behind it. */
  predicate CallsEarly(enc: Encoding, s: string) {
    Before(DocumentMarks(enc, SkipWhiteSpace(enc.Utf8?, At(s)), NoError), 1)
  }

  /** A printed node has at least two bytes. */
  lemma BodyIsLong(n: Node, f: Format)
    requires !IsPlainText(n)
    ensures |PrintBody(n, 0, f)| > 1
  {
  }

  lemma NodeCallsEarly(enc: Encoding, w: string, t: string, y: string, n: Node)
    requires AllWhiteSpace(w) && |t| > 1 && t[0] == '<'
    requires ParseNode(enc.Utf8?, t, NoError) == NodeResult(At(y), n, NoError) && CallsEarly(After(enc, n), y)
    ensures CallsEarly(enc, w + t)
  {
    DropWhiteSpaceConcat(enc.Utf8?, w, t);
    RoomInNode(enc.Utf8?, t, NoError);
    BeforeJoin(NodeMarks(enc.Utf8?, t, NoError),
               DocumentMarks(After(enc, n), SkipWhiteSpace(After(enc, n).Utf8?, At(y)), NoError), 1);
  }

  lemma SpaceCallsEarly(enc: Encoding, w: string)
    requires AllWhiteSpace(w)
    ensures CallsEarly(enc, w)
  {
    assert w + "" == w;
    DropWhiteSpaceConcat(enc.Utf8?, w, "");
  }

  lemma {:induction false} PrintedCallsEarly(enc: Encoding, nodes: seq<Node>, f: Format, w: string)
    requires WellFormedTop(enc, nodes) && Layout(f) && AllWhiteSpace(w)
    ensures CallsEarly(enc, w + PrintNodes(nodes, 0, f))
    decreases |nodes|
  {
    if nodes == [] {
      assert w + "" == w;
      SpaceCallsEarly(enc, w);
    } else {
      var n, y := nodes[0], f.lineBreak + PrintNodes(nodes[1..], 0, f);
      var t := PrintBody(n, 0, f) + y;
      assert Indent(0, f) + t == t;
      PrintedCallsEarly(After(enc, n), nodes[1..], f, f.lineBreak);
      NodeRoundTrip(enc.Utf8?, n, 0, f, t, y, NoError);
      BodyIsLong(n, f);
      NodeCallsEarly(enc, w, t, y, n);
    }
  }

  /** Position tracking comes to an end on the way. */
  lemma DocumentEnds(enc: Encoding, nodes: seq<Node>, f: Format, c: Cursor, tab: int)
    requires WellFormedDocument(enc, nodes) && Layout(f)
    ensures Ends(enc, PrintDocument(nodes, f), c, tab)
  {
    var s := PrintNodes(nodes, 0, f);
    assert "" + s == s;
    TopLevelRoundTrip(enc, nodes, f, "", s, []);
    PrintedCallsEarly(enc, nodes, f, "");
    assert BYTE_ORDER_MARK[0] as int == 0xEF;
    EarlyCallsEnd(s, c, ParseMarks(enc, s), tab);
  }
}
