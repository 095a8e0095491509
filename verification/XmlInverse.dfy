/** The law that joins EncodeString and ReadText: what comes back of a text that was escaped. */
module XmlInverse {
  import opened Options
  import opened XmlText
  import opened XmlEntity
  import opened XmlEncode

  // ---- Reading back what was escaped ----

  lemma HexDigitsOf(c: char)
    requires c as int < 32
    ensures var ds := [UpperHex(c as int / 16), UpperHex(c as int % 16)];
            AllDigits(ds, true) && Positional(ds, true) == c as int
  {
    var hi, lo := UpperHex(c as int / 16), UpperHex(c as int % 16);
    var ds := [hi, lo];
    assert ds[..1] == [hi] && [hi][..0] == "";
    assert DigitValue(hi, true) == Some(c as nat / 16) && DigitValue(lo, true) == Some(c as nat % 16);
    assert Positional([hi], true) == c as nat / 16;
  }

  /** The escape of a byte that stands for itself is read back as that byte. */
  lemma GetCharOfEncode(u: bool, c: char, rest: string)
    requires u ==> SequenceLength(c) == 1
    ensures EncodeChar(c) != ""
    ensures GetChar(u, EncodeChar(c) + rest) == Char(rest, [c])
  {
    var s := EncodeChar(c) + rest;
    assert s[|EncodeChar(c)|..] == rest && s[0] == EncodeChar(c)[0];
    if c == '&' || c == '<' || c == '>' || c == '"' || c == '\'' {
      NamedReadsBack(u, c, rest);
    } else if c as int < 32 {
      var ds := [UpperHex(c as int / 16), UpperHex(c as int % 16)];
      HexDigitsOf(c);
      assert s == Prefix(true) + ds + ";" + rest;
      NumericReference(s, ds, true, rest);
      SmallExpands(c as int, u, rest);
    }
  }

  lemma NamedReadsBack(u: bool, c: char, rest: string)
    requires c == '&' || c == '<' || c == '>' || c == '"' || c == '\''
    ensures GetChar(u, EncodeChar(c) + rest) == Char(rest, [c])
  {
    var e := EncodeChar(c);
    var s := e + rest;
    assert s[|e|..] == rest && e <= s;
    var k := if c == '&' then 0 else if c == '<' then 1 else if c == '>' then 2 else if c == '"' then 3 else 4;
    assert ENTITIES[k] == (e, c);
    assert s[1] == e[1] && s[2] == e[2];
    assert forall i | 0 <= i < k :: ENTITIES[i].0[1] != e[1] || ENTITIES[i].0[2] != e[2];
    EntityFound(s, 0, k);
  }

  lemma {:induction false} EntityFound(s: string, i: nat, k: nat)
    requires s != "" && i <= k < |ENTITIES| && ENTITIES[k].0 <= s
    requires forall j | i <= j < k :: !(ENTITIES[j].0 <= s)
    ensures NamedEntity(s, i) == Literal(s[|ENTITIES[k].0|..], ENTITIES[k].1)
    decreases k - i
  {
    if i < k { EntityFound(s, i + 1, k); }
  }

  /** The end tags of attribute values and of element text. */
  predicate IsEndTag(tag: string) {
    tag == "\"" || tag == "'" || tag == "<"
  }

  lemma EncodeCharNotTag(c: char, tag: string, rest: string)
    requires IsEndTag(tag)
    ensures EncodeChar(c) != "" && !(tag <= EncodeChar(c) + rest)
  {
    assert (EncodeChar(c) + rest)[0] == EncodeChar(c)[0];
    assert EncodeChar(c)[0] != tag[0];
  }

  /** One escaped byte in front of a text is read in one step. */
  lemma ReadKeepStep(u: bool, c: char, rest: string, tag: string, acc: string)
    requires IsEndTag(tag) && (u ==> SequenceLength(c) == 1)
    ensures ReadKeep(u, EncodeChar(c) + rest, tag, acc) == ReadKeep(u, rest, tag, acc + [c])
  {
    EncodeCharNotTag(c, tag, rest);
    GetCharOfEncode(u, c, rest);
  }

  lemma AppendHead(acc: string, v: string, n: nat)
    requires n <= |v|
    ensures (acc + v[..n]) + v[n..] == acc + v
  {
  }

  /** As text a multi-byte character is cut out by its lead byte alone: it comes back if its other bytes,
      whatever they are, were not escaped. */
  predicate ReadsWhole(u: bool, v: string) {
    !u || v == "" ||
    var n := SequenceLength(v[0]);
    n <= |v| && (forall i | 1 <= i < n :: EncodeChar(v[i]) == [v[i]]) && ReadsWhole(u, v[n..])
  }

  lemma {:induction false} WellEncodedIsWhole(u: bool, v: string)
    requires WellEncoded(u, v)
    ensures ReadsWhole(u, v)
  {
    if u && v != "" { WellEncodedIsWhole(u, v[SequenceLength(v[0])..]); }
  }

  lemma RawHead(v: string)
    requires v != "" && EncodeChar(v[0]) == [v[0]]
    ensures Encode(v) == [v[0]] + Encode(v[1..])
  {
    EncodeHead(v);
  }

  /** Bytes that are not escaped. */
  lemma {:induction false} EncodeBytes(v: string, n: nat)
    requires n <= |v| && forall i | 0 <= i < n :: EncodeChar(v[i]) == [v[i]]
    ensures Encode(v) == v[..n] + Encode(v[n..])
  {
    if n == 0 {
      assert v[0..] == v && v[..0] == "";
    } else {
      RawHead(v);
      assert forall i | 0 <= i < n - 1 :: v[1..][i] == v[i + 1];
      EncodeBytes(v[1..], n - 1);
      HeadJoins(v, n, Encode(v[n..]));
    }
  }

  lemma HeadJoins(v: string, n: nat, x: string)
    requires 1 <= n <= |v|
    ensures v[1..][n - 1..] == v[n..] && [v[0]] + (v[1..][..n - 1] + x) == v[..n] + x
  {
    assert [v[0]] + v[1..][..n - 1] == v[..n];
    Assoc([v[0]], v[1..][..n - 1], x);
  }

  /** The first character of a text: its escape, what is left, and that both are as before. */
  lemma FirstPart(u: bool, v: string)
    requires v != "" && ReadsWhole(u, v) && !StartsHexRef(v)
    ensures var n := FirstLength(u, v);
            && n <= |v| && ReadsWhole(u, v[n..])
            && Encode(v) == (if n == 1 then EncodeChar(v[0]) else v[..n]) + Encode(v[n..])
            && (NoHexRef(v) <==> NoHexRef(v[n..]))
  {
    var n := FirstLength(u, v);
    if n == 1 {
      EncodeHead(v);
    } else {
      EncodeBytes(v, n);
    }
    forall i | 0 <= i < n ensures !StartsHexRef(v[i..]) {
      if i == 0 { assert v[0..] == v; } else { assert v[i..][0] == v[i]; }
    }
    NoHexRefSplits(v, n);
  }

  lemma NoHexRefSplits(v: string, n: nat)
    requires n <= |v| && forall i | 0 <= i < n :: !StartsHexRef(v[i..])
    ensures NoHexRef(v) <==> NoHexRef(v[n..])
  {
    assert forall i | n <= i < |v| :: v[i..] == v[n..][i - n..];
    if NoHexRef(v) {
      forall i | 0 <= i < |v[n..]| ensures !StartsHexRef(v[n..][i..]) { assert v[n..][i..] == v[i + n..]; }
    }
  }

  /** A multi-byte character is not white space and is no end tag. */
  lemma BytesAhead(v: string, n: nat, rest: string, s: string, tag: string)
    requires 1 < n <= |v| && s == v[..n] + rest && v[0] as int >= 0x80 && IsEndTag(tag)
    ensures s[0] == v[0] && s[..n] == v[..n] && s[n..] == rest && !(tag <= s) && !IsWhiteSpace(s[0])
  {
  }

  /** One character, escaped or of several bytes, is read in one step. */
  lemma ReadKeepFirst(u: bool, v: string, rest: string, tag: string, acc: string)
    requires v != "" && ReadsWhole(u, v) && !StartsHexRef(v) && IsEndTag(tag)
    ensures var n := FirstLength(u, v);
            n <= |v| && ReadKeep(u, (if n == 1 then EncodeChar(v[0]) else v[..n]) + rest, tag, acc)
                     == ReadKeep(u, rest, tag, acc + v[..n])
  {
    var n := FirstLength(u, v);
    FirstPart(u, v);
    if n == 1 {
      ReadKeepStep(u, v[0], rest, tag, acc);
      assert v[..1] == [v[0]];
    } else {
      BytesAhead(v, n, rest, v[..n] + rest, tag);
    }
  }

  lemma PlainAhead(u: bool, v: string, tag: string, r: string, s: string, acc: string)
    requires v != "" && ReadsWhole(u, v) && !StartsHexRef(v) && IsEndTag(tag) && s == Encode(v) + (tag + r)
    ensures var n := FirstLength(u, v);
            n <= |v| && ReadKeep(u, s, tag, acc) == ReadKeep(u, Encode(v[n..]) + (tag + r), tag, acc + v[..n])
  {
    FirstPart(u, v);
    var n := FirstLength(u, v);
    Assoc(if n == 1 then EncodeChar(v[0]) else v[..n], Encode(v[n..]), tag + r);
    ReadKeepFirst(u, v, Encode(v[n..]) + (tag + r), tag, acc);
  }

  /** Escaping and reading back give the text, and reading stops at the end tag. */
  lemma {:induction false} ReadKeepOfEncode(u: bool, v: string, tag: string, r: string, acc: string)
    requires NoHexRef(v) && ReadsWhole(u, v) && IsEndTag(tag)
    ensures ReadKeep(u, Encode(v) + (tag + r), tag, acc) == TextResult(At(tag + r), acc + v)
    decreases |v|
  {
    if v == "" {
      assert Encode(v) + (tag + r) == tag + r && acc + v == acc;
    } else {
      NoHexRefTail(v);
      FirstPart(u, v);
      var n := FirstLength(u, v);
      PlainAhead(u, v, tag, r, Encode(v) + (tag + r), acc);
      ReadKeepOfEncode(u, v[n..], tag, r, acc + v[..n]);
      AppendHead(acc, v, n);
    }
  }

  predicate StopsAt(res: TextResult, t: string) {
    res.stop == At(t)
  }

  /** When reading stops at the end tag, it has added at most n characters, and fewer if `strict`. */
  predicate Delivers(res: TextResult, t: string, acc: string, n: nat, strict: bool) {
    StopsAt(res, t) ==> |res.text| <= |acc| + n && (strict ==> |res.text| < |acc| + n)
  }

  lemma ReadKeepUnfolds(u: bool, s: string, tag: string, acc: string)
    requires s != "" && !(tag <= s) && GetChar(u, s).Char?
    ensures ReadKeep(u, s, tag, acc) == ReadKeep(u, GetChar(u, s).rest, tag, acc + GetChar(u, s).text)
  {
  }

  /** A copied reference in front of a text that delivers what it should. */
  lemma HexRefAhead(u: bool, v: string, tag: string, r: string, s: string, acc: string, acc': string)
    requires IsEndTag(tag) && StartsHexRef(v) && s == Encode(v) + (tag + r)
    requires var (c, j) := (GetChar(u, s), PassEnd(v, 0));
             c.Char? ==>
               && acc' == acc + c.text
               && var res := ReadKeep(u, Encode(v[j + 1..]) + (tag + r), tag, acc');
                  Delivers(res, tag + r, acc', |v| - j - 1, false)
    ensures Delivers(ReadKeep(u, s, tag, acc), tag + r, acc, |v|, true)
  {
    HexRefStep(u, v, tag, r, s);
    match GetChar(u, s)
    case NoChar =>
    case Beyond =>
    case Char(rest, text) =>
      ReadKeepUnfolds(u, s, tag, acc);
      if |rest| < |tag + r| { ReadKeepShrinks(u, rest, tag, acc + text); }
  }

  /** A text with "&#x" in it never comes back: when reading stops at the end tag at all,
      it has delivered fewer bytes. */
  lemma {:induction false} HexRefShrinks(u: bool, v: string, tag: string, r: string, acc: string)
    requires IsEndTag(tag) && WellEncoded(u, v)
    ensures Delivers(ReadKeep(u, Encode(v) + (tag + r), tag, acc), tag + r, acc, |v|, !NoHexRef(v))
    decreases |v|
  {
    var s := Encode(v) + (tag + r);
    if v == "" {
      assert s == tag + r;
    } else if StartsHexRef(v) {
      var j := PassEnd(v, 0);
      PassEndStops(v, 0);
      AfterAscii(u, v, j);
      var c := GetChar(u, s);
      var acc' := if c.Char? then acc + c.text else acc;
      HexRefShrinks(u, v[j + 1..], tag, r, acc');
      HexRefAhead(u, v, tag, r, s, acc, acc');
    } else {
      var n := FirstLength(u, v);
      WellEncodedIsWhole(u, v);
      FirstPart(u, v);
      assert !u ==> WellEncoded(u, v[n..]);
      HexRefShrinks(u, v[n..], tag, r, acc + v[..n]);
      PlainAhead(u, v, tag, r, s, acc);
    }
  }

  /** What follows a byte that is no part of a longer sequence is well encoded, too. */
  lemma {:induction false} AfterAscii(u: bool, v: string, j: nat)
    requires WellEncoded(u, v) && j < |v| && (j + 1 < |v| ==> v[j] as int < 0x80)
    ensures WellEncoded(u, v[j + 1..])
    decreases |v|
  {
    if u && j + 1 < |v| {
      var n := SequenceLength(v[0]);
      if j < n {
        assert n == 1;
      } else {
        AfterAscii(u, v[n..], j - n);
        assert v[n..][j - n + 1..] == v[j + 1..];
      }
    }
  }

  lemma {:induction false} ReadKeepShrinks(u: bool, s: string, tag: string, acc: string)
    ensures var res := ReadKeep(u, s, tag, acc); res.stop.At? ==> |res.stop.rest| <= |s|
  {
  }

  /** Reading stops nowhere but at the end tag and at the end. */
  lemma {:induction false} StopsAtTag(u: bool, s: string, tag: string, acc: string)
    ensures var res := ReadKeep(u, s, tag, acc); res.stop.At? && res.stop.rest != "" ==> tag <= res.stop.rest
    decreases |s|
  {
    if s != "" && !(tag <= s) && GetChar(u, s).Char? {
      StopsAtTag(u, GetChar(u, s).rest, tag, acc + GetChar(u, s).text);
    }
  }

  lemma {:induction false} PassEndStops(s: string, i: nat)
    requires i < |s|
    ensures forall k | i < k < PassEnd(s, i) :: s[k] != ';'
    ensures PassEnd(s, i) + 1 < |s| ==> s[PassEnd(s, i)] == ';'
    decreases |s| - i
  {
    if i + 1 < |s| && s[i + 1] != ';' { PassEndStops(s, i + 1); }
  }

  /** Where the semicolon search of a copied reference ends, given what follows the copied part. */
  lemma FirstSemicolon(s: string, j: nat, c: char, after: string)
    requires 2 <= j <= |s| && (j == 2 ==> c == 'x') && s[j..] == EncodeChar(c) + after
    requires forall k | 3 <= k < j :: s[k] != ';'
    ensures var q := Find(s, ';', 3);
            && (c == ';' || |EncodeChar(c)| > 1 ==> q < |s| && s[q + 1..] == after)
            && (c != ';' && |EncodeChar(c)| == 1 && (after != "" ==> after[0] != ';') && q < |s| ==>
                  |s[q + 1..]| < |after|)
  {
    var e := EncodeChar(c);
    var last := j + |e| - 1;
    assert forall k | 0 <= k < |e| :: s[j + k] == s[j..][k] == e[k];
    assert s[j..][|e|..] == s[last + 1..] == after;
    if |e| > 1 {
      EntityShape(c);
      assert forall k | j <= k < last :: s[k] == e[k - j];
      FindIs(s, ';', 3, last);
    } else if c == ';' {
      FindIs(s, ';', 3, j);
    } else {
      assert s[j] == c && (after != "" ==> s[j + 1] == after[0]);
    }
  }

  lemma EntityShape(c: char)
    requires |EncodeChar(c)| > 1
    ensures var e := EncodeChar(c); e[|e| - 1] == ';' && forall k | 0 <= k < |e| - 1 :: e[k] != ';'
  {
  }

  lemma GetCharAtNumeric(u: bool, s: string)
    requires StartsHexRef(s)
    ensures var q := Find(s, ';', 3);
            GetChar(u, s).NoChar? || (GetChar(u, s).Char? && q < |s| && GetChar(u, s).rest == s[q + 1..])
    ensures GetChar(u, s).Char? ==> |GetChar(u, s).text| <= 4
  {
    ExpandIsShort(GetEntity(s), u);
  }

  /** What the scan from the semicolon back makes of a hexadecimal reference. */
  lemma GetCharScanned(u: bool, s: string, q: nat)
    requires StartsHexRef(s) && 3 <= q < |s| && Find(s, ';', 3) == q
    ensures var n := ScanBack(s, q - 1, true, 1, 0);
            && (n.None? ==> GetChar(u, s).NoChar?)
            && (n.Some? && n.value < 32 ==> GetChar(u, s) == Char(s[q + 1..], [n.value as char]))
  {
    var n := ScanBack(s, q - 1, true, 1, 0);
    if n.Some? && n.value < 32 { SmallExpands(n.value, u, s[q + 1..]); }
  }

  predicate OneByte(c: CharResult) {
    c.NoChar? || (c.Char? && |c.text| == 1)
  }

  lemma ControlShape(s: string, c: char, after: string)
    requires |s| >= 3 && c as int < 32 && s[3..] == EncodeChar(c) + after
    ensures |s| > 8 && s[3] == '&' && s[4] == '#' && s[5] == 'x' && s[8] == ';'
    ensures s[6] == UpperHex(c as int / 16) && s[7] == UpperHex(c as int % 16)
  {
    var e := EncodeChar(c);
    assert forall k | 0 <= k < |e| :: s[3 + k] == s[3..][k] == e[k];
  }

  lemma ScanTwo(s: string, c: char)
    requires c as int < 32 && |s| > 8 && s[5] == 'x'
    requires s[6] == UpperHex(c as int / 16) && s[7] == UpperHex(c as int % 16)
    ensures ScanBack(s, 7, true, 1, 0) == Some(c as nat)
  {
    HexDigitsOf(c);
    var n := c as nat;
    assert s[6..8] == [s[6], s[7]] && n == 1 * n;
    FitsWord(n);
    ScanBackValue(s, 5, 7, true, 1, 0, 1, 0, n);
  }

  lemma ShortControl(u: bool, s: string, c: char, after: string)
    requires StartsHexRef(s) && c as int < 32 && s[3..] == EncodeChar(c) + after
    ensures OneByte(GetChar(u, s))
  {
    ControlShape(s, c, after);
    FindIs(s, ';', 3, 8);
    ScanTwo(s, c);
    GetCharScanned(u, s, 8);
  }

  lemma ShortNamed(u: bool, s: string, c: char, after: string)
    requires StartsHexRef(s) && c as int >= 32 && |EncodeChar(c)| > 1 && s[3..] == EncodeChar(c) + after
    ensures OneByte(GetChar(u, s))
  {
    var e := EncodeChar(c);
    var q := 2 + |e|;
    assert forall k | 0 <= k < |e| :: s[3 + k] == s[3..][k] == e[k];
    EntityShape(c);
    FindIs(s, ';', 3, q);
    assert s[q - 1] == e[|e| - 2] && DigitValue(e[|e| - 2], true) == None && e[|e| - 2] != 'x';
    GetCharScanned(u, s, q);
  }

  /** Of the shortest copied reference one byte is left at most. */
  lemma ShortReference(u: bool, s: string, c: char, after: string)
    requires StartsHexRef(s) && s[3..] == EncodeChar(c) + after && (c == ';' || |EncodeChar(c)| > 1)
    ensures OneByte(GetChar(u, s))
  {
    if c == ';' {
      assert s[3] == s[3..][0] == ';';
      FindIs(s, ';', 3, 3);
      GetCharScanned(u, s, 3);
    } else if c as int < 32 {
      ShortControl(u, s, c, after);
    } else {
      ShortNamed(u, s, c, after);
    }
  }

  lemma EncodeBehindPass(v: string, j: nat)
    requires StartsHexRef(v) && j == PassEnd(v, 0) && !StartsHexRef(v[j..])
    ensures Encode(v) == v[..j] + (EncodeChar(v[j]) + Encode(v[j + 1..]))
  {
    var w := v[j..];
    EncodePassHead(v, w);
    EncodeHead(w);
    assert w[1..] == v[j + 1..] && w[0] == v[j];
  }

  lemma HexPassEnd(v: string)
    requires StartsHexRef(v)
    ensures var j := PassEnd(v, 0); 2 <= j && (j == 2 ==> v[j] == 'x') && !StartsHexRef(v[j..])
  {
    assert PassEnd(v, 0) == PassEnd(v, 1) == PassEnd(v, 2);
    PassEndStops(v, 0);
  }

  /** How a copied reference looks from its ampersand on. */
  lemma CopiedHead(s: string, v: string, j: nat, after: string)
    requires StartsHexRef(v) && 2 <= j < |v| && (j == 2 ==> v[j] == 'x')
    requires j <= |s| && s[j..] == EncodeChar(v[j]) + after
    requires forall k | 0 <= k < j :: s[k] == v[k]
    ensures StartsHexRef(s)
  {
    assert s[0] == v[0] && s[1] == v[1];
    if j == 2 {
      assert EncodeChar('x') == "x" && s[2] == s[2..][0];
    } else {
      assert s[2] == v[2];
    }
  }

  /** At a copied reference the reader fails, runs past the end tag, or consumes the whole reference
      together with the semicolon that ends it and delivers fewer bytes. */
  lemma HexRefStep(u: bool, v: string, tag: string, r: string, s: string)
    requires IsEndTag(tag) && StartsHexRef(v) && s == Encode(v) + (tag + r)
    ensures s != "" && !(tag <= s)
    ensures var (c, j) := (GetChar(u, s), PassEnd(v, 0));
            c.NoChar? || (c.Char? && (|c.rest| < |tag + r|
                                      || (c.rest == Encode(v[j + 1..]) + (tag + r) && |c.text| <= j)))
  {
    var j := PassEnd(v, 0);
    var after := Encode(v[j + 1..]) + (tag + r);
    HexPassEnd(v);
    EncodeBehindPass(v, j);
    PassEndStops(v, 0);
    PrefixSplit(s, v[..j], EncodeChar(v[j]), Encode(v[j + 1..]), tag + r);
    CopiedHead(s, v, j, after);
    HexRefRead(u, s, j, v[j], after);
    if v[j] != ';' { assert after == tag + r; }
  }

  /** What GetChar makes of a reference whose last character was escaped. */
  lemma HexRefRead(u: bool, s: string, j: nat, c: char, after: string)
    requires StartsHexRef(s) && 2 <= j <= |s| && (j == 2 ==> c == 'x') && s[j..] == EncodeChar(c) + after
    requires forall k | 3 <= k < j :: s[k] != ';'
    requires c != ';' ==> after != "" && after[0] != ';'
    ensures var g := GetChar(u, s);
            g.NoChar? || (g.Char? && ((c != ';' && |g.rest| < |after|) || (g.rest == after && |g.text| <= j)))
  {
    FirstSemicolon(s, j, c, after);
    GetCharAtNumeric(u, s);
    if j == 3 && (c == ';' || |EncodeChar(c)| > 1) { ShortReference(u, s, c, after); }
  }

  lemma PrefixSplit(s: string, a: string, b: string, c: string, d: string)
    requires s == (a + (b + c)) + d
    ensures s[|a|..] == b + (c + d)
    ensures forall k | 0 <= k < |a| :: s[k] == a[k]
  {
  }

  // ---- Broken sequences ----

  /** How far a text goes without a byte that is escaped, but no further than n. */
  function RawLength(v: string, n: nat): (k: nat)
    ensures k <= n && k <= |v|
    ensures forall i | 0 <= i < k :: EncodeChar(v[i]) == [v[i]]
    ensures k < n && k < |v| ==> EncodeChar(v[k]) != [v[k]]
  {
    if n == 0 || v == "" || EncodeChar(v[0]) != [v[0]] then 0 else 1 + RawLength(v[1..], n - 1)
  }

  /** The rest of an escape, without its ampersand, reads as it stands. */
  predicate Inert(w: string) {
    forall c <- w :: c != '&' && c != '<' && c != '"' && c != '\'' && c as int < 0x80
  }

  lemma EscapeTail(c: char, m: nat)
    requires 1 <= m <= |EncodeChar(c)|
    ensures Inert(EncodeChar(c)[m..])
  {
  }

  lemma {:induction false} ReadInert(u: bool, w: string, rest: string, tag: string, acc: string)
    requires Inert(w) && IsEndTag(tag)
    ensures ReadKeep(u, w + rest, tag, acc) == ReadKeep(u, rest, tag, acc + w)
  {
    if w == "" {
      assert w + rest == rest && acc + w == acc;
    } else {
      var s := w + rest;
      assert w[0] in w && s[0] == w[0] && s[1..] == w[1..] + rest;
      assert forall c <- w[1..] :: c in w;
      ReadInert(u, w[1..], rest, tag, acc + [w[0]]);
      assert acc + [w[0]] + w[1..] == acc + w;
    }
  }

  /** Reading that comes to the end tag has added at least n bytes, and more if `strict`. */
  predicate Exceeds(res: TextResult, t: string, acc: string, n: nat, strict: bool) {
    StopsAt(res, t) ==> |res.text| >= |acc| + n && (strict ==> |res.text| > |acc| + n)
  }

  lemma EscapeIsLong(c: char)
    requires EncodeChar(c) != [c]
    ensures |EncodeChar(c)| >= 4
  {
  }

  lemma CutWithin(a: string, e: string, rest: string, s: string, n: nat)
    requires s == a + (e + rest) && |a| <= n <= |a| + |e|
    ensures s[..n] == a + e[..n - |a|] && s[n..] == e[n - |a|..] + rest
    ensures s[..n] + e[n - |a|..] == a + e
  {
  }

  /** The escape of a text whose byte at k is escaped, and the ones before are not. */
  lemma EscapeAt(v: string, k: nat, tail: string)
    requires NoHexRef(v) && k < |v| && forall i | 0 <= i < k :: EncodeChar(v[i]) == [v[i]]
    ensures Encode(v) + tail == v[..k] + (EncodeChar(v[k]) + (Encode(v[k + 1..]) + tail))
  {
    EncodeBytes(v, k);
    NoHexRefAt(v, k);
    EncodeHead(v[k..]);
    assert v[k..][1..] == v[k + 1..];
    Assoc(v[..k], EncodeChar(v[k]) + Encode(v[k + 1..]), tail);
    Assoc(EncodeChar(v[k]), Encode(v[k + 1..]), tail);
  }

  /** A sequence that is broken off by an escape is read with a part of the escape, and what is left of
      that stays in the text. */
  lemma CutEscape(v: string, k: nat, n: nat, tag: string, r: string, acc: string)
    requires NoHexRef(v) && IsEndTag(tag) && v != "" && n == SequenceLength(v[0])
    requires 1 <= k < n && k < |v| && k == RawLength(v, n)
    ensures ReadKeep(true, Encode(v) + (tag + r), tag, acc)
         == ReadKeep(true, Encode(v[k + 1..]) + (tag + r), tag, acc + (v[..k] + EncodeChar(v[k])))
  {
    var e, rest := EncodeChar(v[k]), Encode(v[k + 1..]) + (tag + r);
    var s := Encode(v) + (tag + r);
    EscapeIsLong(v[k]);
    EscapeAt(v, k, tag + r);
    EscapeTail(v[k], n - k);
    assert v[..k][0] == v[0];
    ReadCut(s, v[..k], e, rest, n, tag, acc);
  }

  lemma ReadCut(s: string, a: string, e: string, rest: string, n: nat, tag: string, acc: string)
    requires s == a + (e + rest) && a != "" && IsEndTag(tag)
    requires n == SequenceLength(a[0]) && 1 < n && |a| <= n <= |a| + |e| && Inert(e[n - |a|..])
    ensures ReadKeep(true, s, tag, acc) == ReadKeep(true, rest, tag, acc + (a + e))
  {
    var left := e[n - |a|..];
    CutWithin(a, e, rest, s, n);
    assert s[0] == a[0];
    LeadStep(s, n, tag, acc, left + rest);
    ReadInert(true, left, rest, tag, acc + s[..n]);
    Assoc(acc, s[..n], left);
  }

  /** The reader at a lead byte. */
  lemma LeadStep(s: string, n: nat, tag: string, acc: string, rest: string)
    requires s != "" && n == SequenceLength(s[0]) && 1 < n <= |s| && rest == s[n..] && IsEndTag(tag)
    ensures ReadKeep(true, s, tag, acc) == ReadKeep(true, rest, tag, acc + s[..n])
  {
    assert !(tag <= s);
  }

  lemma NoHexRefAt(v: string, k: nat)
    requires NoHexRef(v) && k < |v|
    ensures !StartsHexRef(v[k..]) && NoHexRef(v[k..]) && NoHexRef(v[k + 1..])
  {
    forall i | 0 <= i < |v[k..]| ensures !StartsHexRef(v[k..][i..]) { assert v[k..][i..] == v[k + i..]; }
    NoHexRefTail(v[k..]);
    assert v[k..][1..] == v[k + 1..];
  }

  /** A sequence that is broken off by the end takes the end tag along. */
  lemma CutEnd(v: string, tag: string, r: string, acc: string)
    requires v != "" && |v| < SequenceLength(v[0]) && RawLength(v, SequenceLength(v[0])) == |v| && IsEndTag(tag)
    ensures !StopsAt(ReadKeep(true, Encode(v) + (tag + r), tag, acc), tag + r)
  {
    EncodeBytes(v, |v|);
    var s := Encode(v) + (tag + r);
    assert v[|v|..] == "" && Encode(v) == v && s == v + (tag + r) && s[0] == v[0] && !(tag <= s);
    var g := GetChar(true, s);
    if g.Char? { ReadKeepShrinks(true, g.rest, tag, acc + g.text); }
  }

  /** A text that is not read whole never comes back: when reading stops at the end tag at all, it has
      delivered more bytes. */
  lemma {:induction false} BrokenExceeds(u: bool, v: string, tag: string, r: string, acc: string)
    requires NoHexRef(v) && IsEndTag(tag)
    ensures Exceeds(ReadKeep(u, Encode(v) + (tag + r), tag, acc), tag + r, acc, |v|, !ReadsWhole(u, v))
    decreases |v|
  {
    if v == "" {
      assert Encode(v) + (tag + r) == tag + r;
    } else {
      var n := FirstLength(u, v);
      var k := if n == 1 then 1 else RawLength(v, n);
      if k == n {
        OneWhole(u, v, tag, r, acc);
        BrokenExceeds(u, v[n..], tag, r, acc + v[..n]);
        assert |acc + v[..n]| == |acc| + n;
      } else if k == |v| {
        CutEnd(v, tag, r, acc);
      } else {
        NoHexRefAt(v, k);
        EscapeIsLong(v[k]);
        BrokenExceeds(u, v[k + 1..], tag, r, acc + (v[..k] + EncodeChar(v[k])));
        CutEscape(v, k, n, tag, r, acc);
      }
    }
  }

  /** A first character that is whole, whatever follows it. */
  lemma OneWhole(u: bool, v: string, tag: string, r: string, acc: string)
    requires v != "" && NoHexRef(v) && IsEndTag(tag)
    requires var n := FirstLength(u, v); n == 1 || RawLength(v, n) == n
    ensures var n := FirstLength(u, v);
            && n <= |v| && NoHexRef(v[n..]) && (ReadsWhole(u, v) <==> ReadsWhole(u, v[n..]))
            && ReadKeep(u, Encode(v) + (tag + r), tag, acc)
               == ReadKeep(u, Encode(v[n..]) + (tag + r), tag, acc + v[..n])
  {
    var n := FirstLength(u, v);
    NoHexRefTail(v);
    var rest := Encode(v[n..]) + (tag + r);
    if n == 1 {
      EncodeHead(v);
      Assoc(EncodeChar(v[0]), Encode(v[1..]), tag + r);
      ReadKeepStep(u, v[0], rest, tag, acc);
      assert v[..1] == [v[0]];
    } else {
      WholeSequence(v, n, tag, r, acc);
    }
  }

  lemma WholeSequence(v: string, n: nat, tag: string, r: string, acc: string)
    requires v != "" && NoHexRef(v) && IsEndTag(tag)
    requires n == SequenceLength(v[0]) > 1 && RawLength(v, n) == n
    ensures n <= |v| && NoHexRef(v[n..])
    ensures ReadKeep(true, Encode(v) + (tag + r), tag, acc)
         == ReadKeep(true, Encode(v[n..]) + (tag + r), tag, acc + v[..n])
  {
    NoHexRefAt(v, n - 1);
    EncodeBytes(v, n);
    var s, rest := Encode(v) + (tag + r), Encode(v[n..]) + (tag + r);
    Assoc(v[..n], Encode(v[n..]), tag + r);
    BytesAhead(v, n, rest, s, tag);
    LeadStep(s, n, tag, acc, rest);
  }

  /** Reading an escaped text up to either quote or '<' gives the text back, and stops at the end tag: of the
      texts without "&#x" exactly for those that are read whole, and of the well-encoded texts exactly for
      those without "&#x". */
  lemma EscapeInverse(u: bool, v: string, tag: string, r: string)
    requires IsEndTag(tag)
    ensures NoHexRef(v) ==>
              (ReadText(u, At(Encode(v) + (tag + r)), tag, false) == TextResult(At(tag + r), v) <==> ReadsWhole(u, v))
    ensures WellEncoded(u, v) ==>
              (ReadText(u, At(Encode(v) + (tag + r)), tag, false) == TextResult(At(tag + r), v) <==> NoHexRef(v))
  {
    if WellEncoded(u, v) { WellEncodedIsWhole(u, v); }
    if NoHexRef(v) {
      if ReadsWhole(u, v) { ReadKeepOfEncode(u, v, tag, r, ""); } else { BrokenExceeds(u, v, tag, r, ""); }
      assert "" + v == v;
    } else if WellEncoded(u, v) {
      HexRefShrinks(u, v, tag, r, "");
    }
  }

  lemma NoReference(v: string)
    requires |v| <= 2
    ensures NoHexRef(v)
  {
  }

  /** In the two ways in which this fails: a lead byte at the end takes the end tag along or runs past the
      NUL, and one in front of an escaped character breaks the escape. */
  lemma BrokenSequenceFails(lead: char, tag: string, r: string)
    requires IsEndTag(tag) && SequenceLength(lead) > 1
    ensures ReadText(true, At(Encode([lead]) + (tag + r)), tag, false).stop != At(tag + r)
    ensures ReadText(true, At([lead]), tag, false).stop == Wild
    ensures SequenceLength(lead) == 2 ==>
              ReadText(true, At(Encode([lead, '<']) + (tag + r)), tag, false)
              == TextResult(At(tag + r), [lead] + "&lt;")
  {
    CutEnd([lead], tag, r, "");
    if SequenceLength(lead) == 2 {
      var v := [lead, '<'];
      assert v[1 + 1..] == "" && v[..1] == [lead] && RawLength(v[1..], 1) == 0;
      NoReference(v);
      CutEscape(v, 1, 2, tag, r, "");
      assert Encode("") + (tag + r) == tag + r && "" + ([lead] + "&lt;") == [lead] + "&lt;";
    }
  }

  // ---- Condensed white space ----

  /** Every space stands between two characters that are no spaces. A space within a multi-byte character
      is none. */
  predicate Tidy(u: bool, v: string) {
    v != "" ==> v[0] != ' ' && TidyRest(u, v)
  }

  /** The same, where the text before it ended with a character. */
  predicate TidyRest(u: bool, v: string)
    decreases |v|
  {
    v == "" ||
    var n := FirstLength(u, v);
    if v[0] == ' ' then |v| > 1 && v[1] != ' ' && TidyRest(u, v[1..]) else n <= |v| && TidyRest(u, v[n..])
  }

  /** No space at either end and no two spaces in a row. */
  predicate Condensed(v: string) {
    v != "" ==> v[0] != ' ' && v[|v| - 1] != ' ' && forall i | 0 <= i < |v| - 1 :: v[i] != ' ' || v[i + 1] != ' '
  }

  lemma {:induction false} TidyRestOfBytes(v: string)
    requires v != "" ==> v[|v| - 1] != ' ' && forall i | 0 <= i < |v| - 1 :: v[i] != ' ' || v[i + 1] != ' '
    ensures TidyRest(false, v)
  {
    if v != "" { TidyRestOfBytes(v[1..]); }
  }

  /** Outside UTF-8 this is what it seems. */
  lemma {:induction false} TidyIsCondensed(v: string)
    ensures Tidy(false, v) <==> Condensed(v)
  {
    if Condensed(v) { TidyRestOfBytes(v); }
    if Tidy(false, v) { TidyHasNoPair(v); }
  }

  lemma {:induction false} TidyHasNoPair(v: string)
    requires TidyRest(false, v)
    ensures v != "" ==> v[|v| - 1] != ' ' && forall i | 0 <= i < |v| - 1 :: v[i] != ' ' || v[i + 1] != ' '
  {
    if v != "" {
      TidyHasNoPair(v[1..]);
      assert forall i | 1 <= i < |v| :: v[i] == v[1..][i - 1];
    }
  }

  lemma ReadCondensedStep(u: bool, c: char, rest: string, tag: string, pending: bool, acc: string)
    requires IsEndTag(tag) && (u ==> SequenceLength(c) == 1)
    ensures ReadCondensed(u, EncodeChar(c) + rest, tag, pending, acc)
         == if c == ' ' then ReadCondensed(u, rest, tag, true, acc)
            else ReadCondensed(u, rest, tag, false, (if pending then acc + " " else acc) + [c])
  {
    EncodeCharNotTag(c, tag, rest);
    GetCharOfEncode(u, c, rest);
    var s := EncodeChar(c) + rest;
    assert s[0] == EncodeChar(c)[0];
    if c == ' ' { assert s[1..] == rest; }
  }

  /** One character of an escaped text: a space becomes due, anything else is added behind a due space. */
  lemma ReadCondensedFirst(u: bool, v: string, after: string, tag: string, pending: bool, acc: string)
    requires v != "" && ReadsWhole(u, v) && NoHexRef(v) && IsEndTag(tag)
    ensures var n := FirstLength(u, v);
            && n <= |v| && ReadsWhole(u, v[n..]) && NoHexRef(v[n..])
            && ReadCondensed(u, Encode(v) + after, tag, pending, acc)
               == if v[0] == ' ' then ReadCondensed(u, Encode(v[1..]) + after, tag, true, acc)
                  else ReadCondensed(u, Encode(v[n..]) + after, tag, false,
                                     (if pending then acc + " " else acc) + v[..n])
  {
    var n := FirstLength(u, v);
    NoHexRefTail(v);
    FirstPart(u, v);
    var first, rest := if n == 1 then EncodeChar(v[0]) else v[..n], Encode(v[n..]) + after;
    Assoc(first, Encode(v[n..]), after);
    if n == 1 {
      ReadCondensedStep(u, v[0], rest, tag, pending, acc);
      assert v[..1] == [v[0]];
    } else {
      CondensedSequence(v, n, rest, v[..n] + rest, tag, pending, acc);
    }
  }

  lemma CondensedSequence(v: string, n: nat, rest: string, s: string, tag: string, pending: bool, acc: string)
    requires v != "" && n == SequenceLength(v[0]) && 1 < n <= |v| && s == v[..n] + rest && IsEndTag(tag)
    ensures v[0] != ' '
    ensures ReadCondensed(true, s, tag, pending, acc)
         == ReadCondensed(true, rest, tag, false, (if pending then acc + " " else acc) + v[..n])
  {
    BytesAhead(v, n, rest, s, tag);
  }

  lemma {:induction false} ReadCondensedSpaces(u: bool, w: string, tag: string, r: string, pending: bool, acc: string)
    requires AllWhiteSpace(w) && IsEndTag(tag)
    ensures ReadCondensed(u, w + (tag + r), tag, pending, acc) == TextResult(At(tag + r), acc)
  {
    var s := w + (tag + r);
    if w == "" {
      assert s == tag + r;
    } else {
      assert s[0] == w[0] && w[0] in w && s[1..] == w[1..] + (tag + r);
      ReadCondensedSpaces(u, w[1..], tag, r, true, acc);
    }
  }

  /** A tidy text is read as it is; a space may be due before it. */
  lemma {:induction false} ReadCondensedOfEncode(u: bool, v: string, w: string, tag: string, r: string,
                                                  pending: bool, acc: string)
    requires NoHexRef(v) && ReadsWhole(u, v) && IsEndTag(tag) && AllWhiteSpace(w)
    requires TidyRest(u, v) && (pending && v != "" ==> v[0] != ' ')
    ensures ReadCondensed(u, Encode(v) + (w + (tag + r)), tag, pending, acc)
         == TextResult(At(tag + r), (if pending && v != "" then acc + " " else acc) + v)
    decreases |v|
  {
    var after := w + (tag + r);
    if v == "" {
      assert Encode(v) + after == after;
      ReadCondensedSpaces(u, w, tag, r, pending, acc);
    } else {
      ReadCondensedFirst(u, v, after, tag, pending, acc);
      if v[0] == ' ' {
        ReadCondensedOfEncode(u, v[1..], w, tag, r, true, acc);
        AppendHead(acc, v, 1);
        assert v[..1] == " ";
      } else {
        var n := FirstLength(u, v);
        var acc' := if pending then acc + " " else acc;
        ReadCondensedOfEncode(u, v[n..], w, tag, r, false, acc' + v[..n]);
        AppendHead(acc', v, n);
      }
    }
  }

  /** Any other text loses a space. */
  lemma {:induction false} ReadCondensedLoses(u: bool, v: string, w: string, tag: string, r: string,
                                               pending: bool, acc: string)
    requires NoHexRef(v) && ReadsWhole(u, v) && IsEndTag(tag) && AllWhiteSpace(w)
    ensures var res := ReadCondensed(u, Encode(v) + (w + (tag + r)), tag, pending, acc);
            var most := |acc| + |v| + if pending && v != "" then 1 else 0;
            && res.stop == At(tag + r) && |res.text| <= most
            && (!TidyRest(u, v) || (pending && v != "" && v[0] == ' ') ==> |res.text| < most)
    decreases |v|
  {
    var after := w + (tag + r);
    if v == "" {
      assert Encode(v) + after == after;
      ReadCondensedSpaces(u, w, tag, r, pending, acc);
    } else {
      ReadCondensedFirst(u, v, after, tag, pending, acc);
      if v[0] == ' ' {
        ReadCondensedLoses(u, v[1..], w, tag, r, true, acc);
      } else {
        var n := FirstLength(u, v);
        ReadCondensedLoses(u, v[n..], w, tag, r, false, (if pending then acc + " " else acc) + v[..n]);
      }
    }
  }

  /** White space skipping stops at the text. */
  lemma EncodeNotSkipped(u: bool, v: string, after: string)
    requires NoHexRef(v) && ReadsWhole(u, v) && v != "" && v[0] != ' ' && !(u && IsMark(v))
    ensures Encode(v) != "" && !Skips(u, Encode(v) + after) && Encode(v)[0] != '<'
  {
    NoHexRefTail(v);
    FirstPart(u, v);
    var s := Encode(v) + after;
    EncodeHead(v);
    assert s[0] == Encode(v)[0] == EncodeChar(v[0])[0];
    if u && FirstLength(u, v) > 1 {
      var n := FirstLength(u, v);
      assert forall i | 0 <= i < n :: s[i] == Encode(v)[i] == v[i];
    }
  }

  /** A space or a mark at the start is skipped. */
  lemma FrontIsSkipped(u: bool, v: string, after: string)
    requires NoHexRef(v) && ReadsWhole(u, v) && v != "" && (v[0] == ' ' || (u && IsMark(v)))
    ensures var n := FirstLength(u, v);
            && n <= |v| && NoHexRef(v[n..]) && ReadsWhole(u, v[n..])
            && DropWhiteSpace(u, Encode(v) + after) == DropWhiteSpace(u, Encode(v[n..]) + after)
  {
    var n := FirstLength(u, v);
    NoHexRefTail(v);
    FirstPart(u, v);
    var s, rest := Encode(v) + after, Encode(v[n..]) + after;
    Assoc(if n == 1 then EncodeChar(v[0]) else v[..n], Encode(v[n..]), after);
    if n == 1 {
      assert EncodeChar(v[0]) == " " && s[0] == ' ' && s[1..] == rest;
    } else {
      assert s[..3] == v[..3] && s[3..] == rest;
      assert forall i | 0 <= i < 3 :: s[i] == s[..3][i] == v[i];
    }
  }

  /** What is skipped in front of the text is lost. */
  lemma {:induction false} SkippingLoses(u: bool, v: string, w: string, tag: string, r: string)
    requires NoHexRef(v) && ReadsWhole(u, v) && IsEndTag(tag) && AllWhiteSpace(w)
    ensures var res := ReadCondensed(u, DropWhiteSpace(u, Encode(v) + (w + (tag + r))), tag, false, "");
            && res.stop == At(tag + r) && |res.text| <= |v|
            && (!Tidy(u, v) || (u && IsMark(v)) ==> |res.text| < |v|)
    decreases |v|
  {
    var after := w + (tag + r);
    if v == "" {
      assert Encode(v) + after == after && "" + (tag + r) == tag + r;
      DropWhiteSpaceConcat(u, w, tag + r);
      ReadCondensedSpaces(u, "", tag, r, false, "");
    } else if v[0] == ' ' || (u && IsMark(v)) {
      FrontIsSkipped(u, v, after);
      SkippingLoses(u, v[FirstLength(u, v)..], w, tag, r);
    } else {
      EncodeNotSkipped(u, v, after);
      ReadCondensedLoses(u, v, w, tag, r, false, "");
    }
  }

  /** Element text without a reference and read whole survives condensation, whatever white space stands
      around it, exactly if it is tidy and does not start with a mark. */
  lemma CondensedInverse(u: bool, v: string, before: string, after: string, tag: string, r: string)
    requires NoHexRef(v) && ReadsWhole(u, v) && IsEndTag(tag) && AllWhiteSpace(before) && AllWhiteSpace(after)
    ensures ReadText(u, At(before + (Encode(v) + (after + (tag + r)))), tag, true) == TextResult(At(tag + r), v)
            <==> Tidy(u, v) && !(u && IsMark(v))
  {
    var s := Encode(v) + (after + (tag + r));
    DropAfterSpace(u, before, s);
    SkippingLoses(u, v, after, tag, r);
    if v != "" && Tidy(u, v) && !(u && IsMark(v)) {
      EncodeNotSkipped(u, v, after + (tag + r));
      ReadCondensedOfEncode(u, v, after, tag, r, false, "");
      assert "" + v == v;
    }
  }

  // ---- Text that was not escaped ----

  predicate StartsReference(v: string) {
    |v| > 1 && v[0] == '&' && (v[1] == '#' || exists k | 0 <= k < |ENTITIES| :: ENTITIES[k].0 <= v)
  }

  /** What stands between quotes as it is, as the fields of a declaration do, comes back if no character of
      it is a quote, starts a reference, or is broken off. */
  predicate FieldReads(u: bool, v: string)
    decreases |v|
  {
    v == "" ||
    var n := FirstLength(u, v);
    n <= |v| && (n == 1 ==> v[0] != '"' && !StartsReference(v)) && FieldReads(u, v[n..])
  }

  lemma EntityHasNoQuote(k: nat)
    requires k < |ENTITIES|
    ensures var e := ENTITIES[k].0; |e| >= 4 && e[0] == '&' && '"' !in e
  {
  }

  lemma PrefixWithin(e: string, v: string, t: string)
    requires e <= v + t && t != ""
    ensures e <= v || t[0] in e
  {
    if |e| <= |v| {
      assert e == (v + t)[..|e|] == v[..|e|];
    } else {
      assert e[|v|] == (v + t)[|v|] == t[0];
    }
  }

  lemma {:induction false} NoEntity(s: string, v: string, t: string, i: nat)
    requires s == v + t && v != "" && t != "" && t[0] == '"' && i <= |ENTITIES|
    requires forall k | 0 <= k < |ENTITIES| :: !(ENTITIES[k].0 <= v)
    ensures NamedEntity(s, i) == Literal(s[1..], s[0])
    decreases |ENTITIES| - i
  {
    if i < |ENTITIES| {
      EntityHasNoQuote(i);
      if ENTITIES[i].0 <= s { PrefixWithin(ENTITIES[i].0, v, t); }
      NoEntity(s, v, t, i + 1);
    }
  }

  lemma PlainAmpersand(u: bool, v: string, t: string, s: string)
    requires s == v + t && v != "" && v[0] == '&' && !StartsReference(v) && t != "" && t[0] == '"'
    ensures GetChar(u, s) == Char(s[1..], "&")
  {
    assert s[0] == '&' && s[1] == if |v| > 1 then v[1] else '"';
    forall k | 0 <= k < |ENTITIES| ensures !(ENTITIES[k].0 <= v) { EntityHasNoQuote(k); }
    NoEntity(s, v, t, 0);
  }

  /** One character of such a text. */
  lemma FieldFirst(u: bool, v: string, t: string, acc: string)
    requires v != "" && t != "" && t[0] == '"'
    requires var n := FirstLength(u, v); n <= |v| && (n == 1 ==> v[0] != '"' && !StartsReference(v))
    ensures var n := FirstLength(u, v);
            n <= |v| && ReadKeep(u, v + t, "\"", acc) == ReadKeep(u, v[n..] + t, "\"", acc + v[..n])
  {
    var s, n := v + t, FirstLength(u, v);
    assert s[0] == v[0] && s[..n] == v[..n] && s[n..] == v[n..] + t && (n == 1 ==> v[..n] == [v[0]]);
    if n == 1 && v[0] == '&' { PlainAmpersand(u, v, t, s); }
  }

  lemma {:induction false} ReadKeepOfField(u: bool, v: string, t: string, acc: string)
    requires FieldReads(u, v) && t != "" && t[0] == '"'
    ensures ReadKeep(u, v + t, "\"", acc) == TextResult(At(t), acc + v)
    decreases |v|
  {
    if v == "" {
      assert v + t == t && acc + v == acc;
    } else {
      var n := FirstLength(u, v);
      FieldFirst(u, v, t, acc);
      ReadKeepOfField(u, v[n..], t, acc + v[..n]);
      AppendHead(acc, v, n);
    }
  }

  /** A reference of less than five bytes has at most one digit. */
  lemma ShortNumeric(s: string)
    requires |s| > 2 && s[0] == '&' && s[1] == '#' && NumericEntity(s).Numeric?
    requires |s| - |NumericEntity(s).rest| <= 4
    ensures NumericEntity(s).ucs < 32
  {
    var hex := s[2] == 'x';
    var q := Find(s, ';', FirstDigit(s));
    assert ScanBack(s, q - 1, hex, 1, 0).Some?;
    if q == 3 && !hex {
      assert ScanBack(s, 2, hex, 1, 0).Some? && s[1] == StopChar(hex);
      if s[2] != '#' { assert ScanBack(s, 1, hex, 10, DigitValue(s[2], hex).value) == ScanBack(s, 2, hex, 1, 0); }
    }
  }

  /** A reference becomes less than it was; only an ampersand that starts none becomes itself. */
  lemma ReferenceShrinks(u: bool, s: string)
    requires s != "" && s[0] == '&' && GetChar(u, s).Char?
    ensures var (rest, text) := (GetChar(u, s).rest, GetChar(u, s).text);
            var k := |s| - |rest|;
            k >= 1 && rest == s[k..] && |text| <= k && (k > 1 ==> |text| < k)
    ensures (|s| > 2 && s[1] == '#') || (exists j | 0 <= j < |ENTITIES| :: ENTITIES[j].0 <= s) ==>
              |s| - |GetChar(u, s).rest| > 1
  {
    if |s| > 2 && s[1] == '#' {
      var k := |s| - |NumericEntity(s).rest|;
      ExpandIsShort(GetEntity(s), u);
      if k <= 4 {
        ShortNumeric(s);
        SmallExpands(NumericEntity(s).ucs, u, NumericEntity(s).rest);
      }
    } else {
      NamedTakes(s, 0);
    }
  }

  lemma {:induction false} NamedTakes(s: string, i: nat)
    requires s != "" && s[0] == '&' && i <= |ENTITIES|
    ensures var (rest, k) := (NamedEntity(s, i).rest, |s| - |NamedEntity(s, i).rest|);
            k >= 1 && rest == s[k..]
    ensures (exists j | i <= j < |ENTITIES| :: ENTITIES[j].0 <= s) ==> |s| - |NamedEntity(s, i).rest| > 1
    decreases |ENTITIES| - i
  {
    if i < |ENTITIES| {
      EntityHasNoQuote(i);
      if !(ENTITIES[i].0 <= s) { NamedTakes(s, i + 1); }
    }
  }

  /** At a reference the reader fails, runs past the quote, or delivers less than it consumes. */
  lemma FieldReference(u: bool, v: string, t: string, s: string)
    requires StartsReference(v) && t != "" && t[0] == '"' && s == v + t && GetChar(u, s).Char?
    requires u ==> SequenceLength(v[0]) == 1
    ensures var (rest, text) := (GetChar(u, s).rest, GetChar(u, s).text);
            |rest| < |t| || (1 < |s| - |rest| <= |v| && rest == v[|s| - |rest|..] + t && |text| < |s| - |rest|)
  {
    assert s[0] == v[0] && s[1] == v[1];
    ReferenceShrinks(u, s);
    if v[1] != '#' {
      var j :| 0 <= j < |ENTITIES| && ENTITIES[j].0 <= v;
      assert ENTITIES[j].0 <= s;
    }
    var k := |s| - |GetChar(u, s).rest|;
    if k <= |v| { DropWithin(v, t, k); }
  }

  lemma DropWithin(v: string, t: string, k: nat)
    requires k <= |v|
    ensures (v + t)[k..] == v[k..] + t
  {
  }

  /** Any other text does not come back: when reading stops at the closing quote at all, it has delivered
      fewer bytes. */
  lemma {:induction false} FieldLoses(u: bool, v: string, t: string, acc: string)
    requires t != "" && t[0] == '"'
    ensures Delivers(ReadKeep(u, v + t, "\"", acc), t, acc, |v|, !FieldReads(u, v))
    decreases |v|
  {
    var s := v + t;
    if v == "" {
      assert s == t;
    } else {
      var n := FirstLength(u, v);
      assert s[0] == v[0];
      if n > |v| || (n == 1 && v[0] == '"') {
        FieldCut(u, v, t, s, acc);
      } else if n == 1 && StartsReference(v) {
        var k := ReferenceStep(u, v, t, s, acc);
        if GoesOn(u, v, t, s, acc, k) { FieldLoses(u, v[k..], t, acc + GetChar(u, s).text); }
      } else {
        FieldFirst(u, v, t, acc);
        FieldLoses(u, v[n..], t, acc + v[..n]);
      }
    }
  }

  lemma NotRead(u: bool, s: string, tag: string, acc: string)
    requires s != "" && !(tag <= s) && !GetChar(u, s).Char?
    ensures !ReadKeep(u, s, tag, acc).stop.At?
  {
  }

  lemma PassedQuote(u: bool, s: string, t: string, acc: string)
    requires s != "" && !("\"" <= s) && GetChar(u, s).Char? && |GetChar(u, s).rest| < |t|
    ensures !StopsAt(ReadKeep(u, s, "\"", acc), t)
  {
    var g := GetChar(u, s);
    ReadKeepUnfolds(u, s, "\"", acc);
    ReadKeepShrinks(u, g.rest, "\"", acc + g.text);
  }

  /** Behind a reference that was resolved within the text, reading goes on in the text. */
  predicate GoesOn(u: bool, v: string, t: string, s: string, acc: string, k: nat) {
    && s != "" && GetChar(u, s).Char? && 0 < k <= |v| && |GetChar(u, s).text| < k
    && ReadKeep(u, s, "\"", acc) == ReadKeep(u, v[k..] + t, "\"", acc + GetChar(u, s).text)
  }

  lemma ReferenceResolved(u: bool, v: string, t: string, s: string, acc: string, k: nat)
    requires StartsReference(v) && t != "" && t[0] == '"' && s == v + t && (u ==> SequenceLength(v[0]) == 1)
    requires GetChar(u, s).Char? && |GetChar(u, s).rest| >= |t| && k == |s| - |GetChar(u, s).rest|
    ensures GoesOn(u, v, t, s, acc, k)
  {
    assert s[0] == v[0];
    FieldReference(u, v, t, s);
    ReadKeepUnfolds(u, s, "\"", acc);
  }

  /** One step at a reference. */
  lemma ReferenceStep(u: bool, v: string, t: string, s: string, acc: string) returns (k: nat)
    requires StartsReference(v) && t != "" && t[0] == '"' && s == v + t && (u ==> SequenceLength(v[0]) == 1)
    ensures GoesOn(u, v, t, s, acc, k) || !StopsAt(ReadKeep(u, s, "\"", acc), t)
  {
    assert s[0] == v[0];
    var g := GetChar(u, s);
    k := 0;
    if !g.Char? {
      NotRead(u, s, "\"", acc);
    } else if |g.rest| < |t| {
      PassedQuote(u, s, t, acc);
    } else {
      k := |s| - |g.rest|;
      ReferenceResolved(u, v, t, s, acc, k);
    }
  }

  /** A quote ends the value too early, and a sequence that is broken off takes the closing quote along. */
  lemma FieldCut(u: bool, v: string, t: string, s: string, acc: string)
    requires v != "" && t != "" && t[0] == '"' && s == v + t
    requires FirstLength(u, v) > |v| || (FirstLength(u, v) == 1 && v[0] == '"')
    ensures !StopsAt(ReadKeep(u, s, "\"", acc), t)
  {
    assert s[0] == v[0];
    if v[0] != '"' {
      var g := GetChar(u, s);
      if g.Char? { ReadKeepShrinks(u, g.rest, "\"", acc + g.text); }
    }
  }

  /** Reading what stands between double quotes gives it back exactly for these texts. */
  lemma FieldInverse(u: bool, v: string, r: string)
    ensures ReadText(u, At(v + ("\"" + r)), "\"", false) == TextResult(At("\"" + r), v) <==> FieldReads(u, v)
  {
    var t := "\"" + r;
    if FieldReads(u, v) { ReadKeepOfField(u, v, t, ""); } else { FieldLoses(u, v, t, ""); }
    assert "" + v == v;
  }
}
