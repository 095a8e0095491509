/** EncodeString, ReadText and the law that joins them: reading back what was escaped. */
module XmlEncode {
  import opened Options
  import opened XmlText
  import opened XmlEntity

  lemma Assoc(a: string, b: string, c: string)
    ensures (a + b) + c == a + (b + c)
  {
  }

  // ---- EncodeString ----

  /** An ampersand that starts a hexadecimal reference is copied, not escaped. */
  predicate StartsHexRef(s: string) {
    |s| > 2 && s[0] == '&' && s[1] == '#' && s[2] == 'x'
  }

  /** How far the copying runs: up to a semicolon, or up to the last character. */
  function PassEnd(s: string, i: nat): (j: nat)
    requires i < |s|
    ensures i <= j < |s|
    ensures i + 1 < |s| ==> i < j
    decreases |s| - i
  {
    if i + 1 < |s| then (if s[i + 1] == ';' then i + 1 else PassEnd(s, i + 1)) else i
  }

  function UpperHex(n: nat): char
    requires n < 16
  {
    if n < 10 then '0' + n as char else 'A' + (n - 10) as char
  }

  function EncodeChar(c: char): string {
    if c == '&' then "&amp;"
    else if c == '<' then "&lt;"
    else if c == '>' then "&gt;"
    else if c == '"' then "&quot;"
    else if c == '\'' then "&apos;"
    else if c as int < 32 then "&#x" + [UpperHex(c as int / 16), UpperHex(c as int % 16)] + ";"
    else [c]
  }

  function Encode(s: string): string {
    if s == "" then ""
    else if StartsHexRef(s) then s[..PassEnd(s, 0)] + Encode(s[PassEnd(s, 0)..])
    else EncodeChar(s[0]) + Encode(s[1..])
  }

  /** The inner loop of EncodeString: copy the reference that starts at i. */
  method CopyReference(str: string, i: nat, prefix: string) returns (out: string, j: nat)
    requires i < |str| && StartsHexRef(str[i..])
    ensures j == i + PassEnd(str[i..], 0)
    ensures out == prefix + str[i..j]
  {
    out, j := prefix, i;
    while j < |str| - 1
      invariant i <= j < |str| && out == prefix + str[i..j]
      invariant PassEnd(str[i..], 0) == PassEnd(str[i..], j - i)
    {
      out := out + [str[j]];
      j := j + 1;
      assert str[i..j] == str[i..j - 1] + [str[j - 1]] && str[i..][j - i] == str[j];
      if str[j] == ';' { break; }
    }
  }

  method EncodeString(str: string) returns (out: string)
    ensures out == Encode(str)
  {
    out := "";
    var i := 0;
    while i < |str|
      invariant i <= |str| && Encode(str) == out + Encode(str[i..])
    {
      ghost var before, start := out, i;
      if str[i] == '&' && i < |str| - 2 && str[i + 1] == '#' && str[i + 2] == 'x' {
        out, i := CopyReference(str, i, out);
        EncodePass(str, start, i, before);
      } else {
        out := out + EncodeChar(str[i]);
        i := i + 1;
        EncodeNext(str, start, before);
      }
    }
    assert out + "" == out;
  }

  lemma EncodePass(str: string, i: nat, j: nat, before: string)
    requires i < |str| && StartsHexRef(str[i..]) && j == i + PassEnd(str[i..], 0)
    ensures before + Encode(str[i..]) == before + str[i..j] + Encode(str[j..])
  {
    assert str[i..][..j - i] == str[i..j] && str[i..][j - i..] == str[j..];
  }

  lemma EncodeNext(str: string, i: nat, before: string)
    requires i < |str| && !StartsHexRef(str[i..])
    ensures before + Encode(str[i..]) == before + EncodeChar(str[i]) + Encode(str[i + 1..])
  {
    assert str[i..][1..] == str[i + 1..];
    assert Encode(str[i..]) == EncodeChar(str[i]) + Encode(str[i + 1..]);
  }

  lemma EncodeHead(v: string)
    requires v != "" && !StartsHexRef(v)
    ensures Encode(v) == EncodeChar(v[0]) + Encode(v[1..])
  {
  }

  lemma EncodePassHead(v: string, w: string)
    requires StartsHexRef(v) && w == v[PassEnd(v, 0)..]
    ensures Encode(v) == v[..PassEnd(v, 0)] + Encode(w)
  {
  }

  /** No "&#x" anywhere: the texts whose escaping the parser undoes. */
  predicate NoHexRef(s: string) {
    forall i | 0 <= i < |s| :: !StartsHexRef(s[i..])
  }

  lemma NoHexRefTail(s: string)
    requires s != "" && NoHexRef(s)
    ensures !StartsHexRef(s) && NoHexRef(s[1..])
  {
    assert s[0..] == s;
    forall i | 0 <= i < |s[1..]| ensures !StartsHexRef(s[1..][i..]) {
      assert s[1..][i..] == s[i + 1..];
    }
  }

  predicate IsMarkup(c: char) {
    c == '<' || c == '>' || c == '"' || c == '\'' || c as int < 32
  }

  predicate Clean(s: string) {
    forall c <- s :: !IsMarkup(c)
  }

  /** What is copied through has nothing to escape in it. */
  predicate PassesClean(s: string) {
    if s == "" then true
    else if StartsHexRef(s) then Clean(s[..PassEnd(s, 0)]) && PassesClean(s[PassEnd(s, 0)..])
    else PassesClean(s[1..])
  }

  /** Escaped text holds no markup character and no control character, exactly for these texts. */
  lemma {:induction false} EncodeIsClean(s: string)
    ensures Clean(Encode(s)) <==> PassesClean(s)
    decreases |s|
  {
    if s == "" {
    } else if StartsHexRef(s) {
      var j := PassEnd(s, 0);
      EncodePassHead(s, s[j..]);
      EncodeIsClean(s[j..]);
      CleanJoin(s[..j], Encode(s[j..]));
    } else {
      EncodeHead(s);
      EncodeIsClean(s[1..]);
      CharIsClean(s[0]);
      CleanJoin(EncodeChar(s[0]), Encode(s[1..]));
    }
  }

  lemma CharIsClean(c: char)
    ensures Clean(EncodeChar(c))
  {
  }

  lemma CleanJoin(a: string, b: string)
    ensures Clean(a + b) <==> Clean(a) && Clean(b)
  {
    if Clean(a + b) {
      forall c <- a ensures !IsMarkup(c) { assert c in a + b; }
      forall c <- b ensures !IsMarkup(c) { assert c in a + b; }
    }
  }

  /** Among them are all texts without "&#x". */
  lemma {:induction false} EncodeHasNoMarkup(s: string)
    requires NoHexRef(s)
    ensures Clean(Encode(s))
  {
    if s != "" {
      NoHexRefTail(s);
      EncodeHead(s);
      EncodeHasNoMarkup(s[1..]);
      CharIsClean(s[0]);
      CleanJoin(EncodeChar(s[0]), Encode(s[1..]));
    }
  }

  /** With a reference in it, what is copied through can be markup. */
  lemma HexRefLeaksMarkup()
    ensures Encode("&#x<a") == "&#x<a"
  {
    var s := "&#x<a";
    assert PassEnd(s, 3) == 4;
    assert s[..4] + Encode(s[4..]) == s by { assert s[4..] == "a" && Encode("a") == "a" + Encode(""); }
  }

  // ---- ReadText ----

  /** The text read, and the pointer before the end tag is stepped over. */
  datatype TextResult = TextResult(stop: Ptr, text: string)

  /** Every character is kept. */
  function ReadKeep(u: bool, s: string, tag: string, acc: string): (r: TextResult)
    ensures r.stop.At? ==> |r.stop.rest| <= |s|
    decreases |s|
  {
    if s == "" || tag <= s then TextResult(At(s), acc)
    else match GetChar(u, s)
      case NoChar => TextResult(Null, acc)
      case Beyond => TextResult(Wild, acc)
      case Char(rest, text) => ReadKeep(u, rest, tag, acc + text)
  }

  /** Runs of white space become one space, and none is kept at the end. */
  function ReadCondensed(u: bool, s: string, tag: string, pending: bool, acc: string): (r: TextResult)
    ensures r.stop.At? ==> |r.stop.rest| <= |s|
    decreases |s|
  {
    if s == "" || tag <= s then TextResult(At(s), acc)
    else if IsWhiteSpace(s[0]) then ReadCondensed(u, s[1..], tag, true, acc)
    else
      var acc' := if pending then acc + " " else acc;
      match GetChar(u, s)
      case NoChar => TextResult(Null, acc')
      case Beyond => TextResult(Wild, acc')
      case Char(rest, text) => ReadCondensed(u, rest, tag, false, acc' + text)
  }

  /** ReadText up to, not over, the end tag; `trim` is its trimWhiteSpace with white space condensed. */
  function ReadText(u: bool, p: Ptr, tag: string, trim: bool): TextResult {
    if !trim then (if p.At? then ReadKeep(u, p.rest, tag, "") else TextResult(p, ""))
    else
      var q := SkipWhiteSpace(u, p);
      if q.At? then ReadCondensed(u, q.rest, tag, false, "") else TextResult(q, "")
  }

  method ReadTextLoop(u: bool, start: Ptr, tag: string, trim: bool) returns (r: TextResult)
    ensures r == ReadText(u, start, tag, trim)
  {
    var p, text := start, "";
    if !trim {
      while p.At? && p.rest != "" && !(tag <= p.rest)
        invariant start.At? && p.At? ==> ReadKeep(u, start.rest, tag, "") == ReadKeep(u, p.rest, tag, text)
        invariant start.At? && !p.At? ==> ReadKeep(u, start.rest, tag, "") == TextResult(p, text)
        invariant !start.At? ==> p == start && text == ""
        decreases if p.At? then |p.rest| + 1 else 0
      {
        var next := ReadChar(u, p.rest);
        match next
        case NoChar => p := Null;
        case Beyond => p := Wild;
        case Char(rest, value) => p, text := At(rest), text + value;
      }
    } else {
      var whitespace := false;
      ghost var first := SkipWhiteSpace(u, start);
      p := SkipWhiteSpaceLoop(u, start);
      while p.At? && p.rest != "" && !(tag <= p.rest)
        invariant first.At? && p.At? ==>
          ReadCondensed(u, first.rest, tag, false, "") == ReadCondensed(u, p.rest, tag, whitespace, text)
        invariant first.At? && !p.At? ==> ReadCondensed(u, first.rest, tag, false, "") == TextResult(p, text)
        invariant !first.At? ==> p == first && text == ""
        decreases if p.At? then |p.rest| + 1 else 0
      {
        if IsWhiteSpace(p.rest[0]) {
          whitespace, p := true, At(p.rest[1..]);
        } else {
          if whitespace { whitespace, text := false, text + " "; }
          var next := ReadChar(u, p.rest);
          match next
          case NoChar => p := Null;
          case Beyond => p := Wild;
          case Char(rest, value) => p, text := At(rest), text + value;
        }
      }
    }
    r := TextResult(p, text);
  }
}
