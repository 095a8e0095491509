/** Character classes and the scanning helpers of TiXmlBase.
    A `const char*` is modelled by the NUL-terminated text it points at, so `p + 1` is
    `rest[1..]` and `!*p` is `rest == ""`.  Characters stand for bytes.  The parameter `u` says whether
    the encoding is UTF-8; the other encodings, the unknown one included, are treated alike. */
module XmlText {

  /** Null is the zero pointer; Wild is a pointer moved past the terminating NUL. */
  datatype Ptr = Null | At(rest: string) | Wild

  /** Moving a pointer forward: landing on the NUL is fine, passing it is not. */
  function Advance(s: string, n: nat): Ptr {
    if n <= |s| then At(s[n..]) else Wild
  }

  predicate IsWhiteSpace(c: char) {
    c == ' ' || '\t' <= c <= '\r'
  }

  predicate IsAlpha(c: char) {
    if c as int < 127 then 'a' <= c <= 'z' || 'A' <= c <= 'Z' else true
  }

  predicate IsAlphaNum(c: char) {
    IsAlpha(c) || '0' <= c <= '9'
  }

  predicate IsNameStart(c: char) {
    IsAlpha(c) || c == '_'
  }

  predicate IsNameChar(c: char) {
    IsAlphaNum(c) || c == '_' || c == '-' || c == '.' || c == ':'
  }

  function ToLower(c: char): char {
    if 'A' <= c <= 'Z' then c + ('a' - 'A') else c
  }

  predicate AllWhiteSpace(s: string) {
    forall c <- s :: IsWhiteSpace(c)
  }

  // ---- SkipWhiteSpace ----

  /** The byte order mark and two noncharacters, which are skipped like white space in UTF-8. */
  predicate IsMark(s: string) {
    |s| >= 3 && s[0] as int == 0xEF
    && var (b, c) := (s[1] as int, s[2] as int);
    (b == 0xBB && c == 0xBF) || (b == 0xBF && (c == 0xBE || c == 0xBF))
  }

  /** There is something to skip. */
  predicate Skips(u: bool, s: string) {
    s != "" && (IsWhiteSpace(s[0]) || (u && IsMark(s)))
  }

  function DropWhiteSpace(u: bool, s: string): (r: string)
    ensures |r| <= |s| && !Skips(u, r)
    ensures Skips(u, s) ==> |r| < |s|
    ensures !Skips(u, s) ==> r == s
  {
    if s == "" then s
    else if u && IsMark(s) then DropWhiteSpace(u, s[3..])
    else if IsWhiteSpace(s[0]) then DropWhiteSpace(u, s[1..])
    else s
  }

  function SkipWhiteSpace(u: bool, p: Ptr): Ptr {
    match p
    case At(s) => if s == "" then Null else At(DropWhiteSpace(u, s))
    case _ => p
  }

  /** The two loops of SkipWhiteSpace. */
  method SkipWhiteSpaceLoop(u: bool, start: Ptr) returns (p: Ptr)
    ensures p == SkipWhiteSpace(u, start)
  {
    p := start;
    if !p.At? { return; }
    if p.rest == "" { return Null; }
    if u {
      while p.rest != ""
        invariant p.At? && DropWhiteSpace(u, start.rest) == DropWhiteSpace(u, p.rest)
        decreases |p.rest|
      {
        if IsMark(p.rest) {
          p := At(p.rest[3..]);
          continue;
        }
        if IsWhiteSpace(p.rest[0]) { p := At(p.rest[1..]); } else { break; }
      }
    } else {
      while p.rest != "" && IsWhiteSpace(p.rest[0])
        invariant p.At? && DropWhiteSpace(u, start.rest) == DropWhiteSpace(u, p.rest)
        decreases |p.rest|
      {
        p := At(p.rest[1..]);
      }
    }
  }

  /** White space in front of anything else is skipped, all of it and nothing more. */
  lemma {:induction false} DropWhiteSpaceConcat(u: bool, w: string, r: string)
    requires AllWhiteSpace(w) && !Skips(u, r)
    ensures DropWhiteSpace(u, w + r) == r
  {
    if w == "" {
      assert w + r == r;
    } else {
      assert (w + r)[1..] == w[1..] + r;
      assert w[0] in w && !IsMark(w + r);
      DropWhiteSpaceConcat(u, w[1..], r);
    }
  }

  /** White space in front does not matter. */
  lemma {:induction false} DropAfterSpace(u: bool, w: string, s: string)
    requires AllWhiteSpace(w)
    ensures DropWhiteSpace(u, w + s) == DropWhiteSpace(u, s)
  {
    if w == "" {
      assert w + s == s;
    } else {
      assert (w + s)[0] == w[0] && w[0] in w && (w + s)[1..] == w[1..] + s;
      DropAfterSpace(u, w[1..], s);
    }
  }

  // ---- StringEqual ----

  predicate PrefixIgnoringCase(tag: string, s: string) {
    |tag| <= |s| && forall i | 0 <= i < |tag| :: ToLower(tag[i]) == ToLower(s[i])
  }

  /** True iff the text at p starts with the tag. */
  predicate StringEqual(p: Ptr, tag: string, ignoreCase: bool) {
    p.At? && p.rest != "" && if ignoreCase then PrefixIgnoringCase(tag, p.rest) else tag <= p.rest
  }

  method StringEqualLoop(p: Ptr, tag: string, ignoreCase: bool) returns (r: bool)
    ensures r == StringEqual(p, tag, ignoreCase)
  {
    if !p.At? || p.rest == "" { return false; }
    var q := 0;
    if ignoreCase {
      while q < |p.rest| && q < |tag| && ToLower(p.rest[q]) == ToLower(tag[q])
        invariant 0 <= q <= |p.rest| && q <= |tag|
        invariant forall i | 0 <= i < q :: ToLower(tag[i]) == ToLower(p.rest[i])
      {
        q := q + 1;
      }
    } else {
      while q < |p.rest| && q < |tag| && p.rest[q] == tag[q]
        invariant 0 <= q <= |p.rest| && q <= |tag|
        invariant tag[..q] == p.rest[..q]
      {
        q := q + 1;
      }
      assert q == |tag| ==> tag[..q] == tag;
    }
    r := q == |tag|;
  }

  // ---- ReadName ----

  datatype NameResult = NameResult(p: Ptr, name: string)

  function NameLength(s: string): (n: nat)
    ensures n <= |s|
    ensures s != "" && IsNameChar(s[0]) ==> n > 0
    ensures forall i | 0 <= i < n :: IsNameChar(s[i])
    ensures n < |s| ==> !IsNameChar(s[n])
  {
    if s != "" && IsNameChar(s[0]) then 1 + NameLength(s[1..]) else 0
  }

  function ReadName(p: Ptr): (r: NameResult)
    ensures p.At? && r.p.At? ==> |r.p.rest| < |p.rest|
  {
    if p.At? && p.rest != "" && IsNameStart(p.rest[0]) then
      var n := NameLength(p.rest);
      NameResult(At(p.rest[n..]), p.rest[..n])
    else
      NameResult(Null, "")
  }

  method ReadNameLoop(start: Ptr) returns (r: NameResult)
    ensures r == ReadName(start)
  {
    if start.At? && start.rest != "" && IsNameStart(start.rest[0]) {
      var s, n := start.rest, 0;
      while n < |s| && IsNameChar(s[n])
        invariant n <= |s|
        invariant n + NameLength(s[n..]) == NameLength(s)
      {
        assert s[n..][1..] == s[n + 1..];
        n := n + 1;
      }
      return NameResult(At(s[n..]), s[..n]);
    }
    r := NameResult(Null, "");
  }

  /** A name the parser can read back: what the printer writes for elements and attributes. */
  predicate ValidName(name: string) {
    name != "" && IsNameStart(name[0]) && forall c <- name :: IsNameChar(c)
  }

  /** In UTF-8 a name must not begin with something that is skipped. */
  predicate ReadableName(u: bool, name: string) {
    ValidName(name) && !(u && IsMark(name))
  }

  lemma ReadNameConcat(name: string, r: string)
    requires ValidName(name)
    requires r != "" ==> !IsNameChar(r[0])
    ensures ReadName(At(name + r)) == NameResult(At(r), name)
  {
    var s := name + r;
    assert forall i | 0 <= i < |name| :: s[i] == name[i] && name[i] in name;
    assert r != "" ==> s[|name|] == r[0];
  }

  // ---- UTF-8 sequences ----

  /** utf8ByteTable, as the number of bytes of the character that starts with this byte. */
  function SequenceLength(lead: char): nat {
    if lead as int < 0xC2 then 1 else if lead as int < 0xE0 then 2 else if lead as int < 0xF0 then 3
    else if lead as int < 0xF5 then 4 else 1
  }

  /** The length of the first character of a text. */
  function FirstLength(u: bool, v: string): (n: nat)
    requires v != ""
    ensures n >= 1
  {
    if u then SequenceLength(v[0]) else 1
  }

  predicate IsContinuation(c: char) {
    0x80 <= c as int < 0xC0
  }

  /** The text starts with a whole character. */
  predicate StartsWhole(s: string) {
    s != "" && SequenceLength(s[0]) <= |s| && forall i | 1 <= i < SequenceLength(s[0]) :: IsContinuation(s[i])
  }

  /** No multi-byte sequence is broken off. Bytes that are no lead stand for themselves. */
  predicate WellEncoded(u: bool, s: string) {
    !u || s == "" || (StartsWhole(s) && WellEncoded(u, s[SequenceLength(s[0])..]))
  }

  // ---- C strings ----

  predicate NoNul(s: string) {
    '\0' !in s
  }

  /** What c_str() shows of a string, and the text before the first NUL of a file. */
  function UpToNul(s: string): string {
    if s == "" || s[0] == '\0' then "" else [s[0]] + UpToNul(s[1..])
  }

  lemma {:induction false} UpToNulIsAll(s: string)
    ensures UpToNul(s) == s <==> NoNul(s)
    ensures |UpToNul(s)| <= |s| && NoNul(UpToNul(s)) && (|UpToNul(s)| == |s| ==> UpToNul(s) == s)
  {
    if s != "" {
      UpToNulIsAll(s[1..]);
      assert s == [s[0]] + s[1..] && (s[0] != '\0' ==> UpToNul(s)[1..] == UpToNul(s[1..]));
    }
  }
}
