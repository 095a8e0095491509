/** What condensing does to the white space of a text, and which bytes are white space, name characters,
    letters and marks. */
module XmlWords {
  import opened Options
  import opened XmlText
  import opened XmlEntity
  import opened XmlEncode

  // ---- Words ----

  predicate Space(c: char) {
    c == ' ' || c == '\t' || c == '\n' || c == '\r' || c as int == 0x0B || c as int == 0x0C
  }

  function WordLength(s: string): (n: nat)
    ensures n <= |s| && (n < |s| ==> Space(s[n]))
    ensures forall i | 0 <= i < n :: !Space(s[i])
  {
    if s == "" || Space(s[0]) then 0 else 1 + WordLength(s[1..])
  }

  /** The words of a text: what stands between its white space. */
  function Words(s: string): seq<string> {
    if s == "" then []
    else if Space(s[0]) then Words(s[1..])
    else [s[..WordLength(s)]] + Words(s[WordLength(s)..])
  }

  /** Words with one space between them. */
  function Joined(words: seq<string>): string {
    if |words| == 0 then "" else if |words| == 1 then words[0] else words[0] + " " + Joined(words[1..])
  }

  /** Further words behind some text. */
  function Further(words: seq<string>): string {
    if words == [] then "" else " " + Joined(words)
  }

  lemma JoinedFirst(words: seq<string>)
    requires words != []
    ensures Joined(words) == words[0] + Further(words[1..])
  {
  }

  lemma WordLengthIs(s: string, n: nat)
    requires n <= |s| && (n < |s| ==> Space(s[n])) && forall i | 0 <= i < n :: !Space(s[i])
    ensures WordLength(s) == n
  {
  }

  /** The text that is left to be added: the rest of a word, or the words after some white space. */
  function Left(s: string, pending: bool): string {
    if pending then Further(Words(s)) else s[..WordLength(s)] + Further(Words(s[WordLength(s)..]))
  }

  lemma LeftAfterSpace(s: string, pending: bool)
    requires s != "" && Space(s[0])
    ensures Left(s, pending) == Left(s[1..], true)
  {
  }

  lemma SlicesAgree(s: string, k: nat, n: nat)
    requires k <= n <= |s|
    ensures s[..n] == s[..k] + s[k..][..n - k] && s[n..] == s[k..][n - k..]
  {
  }

  lemma WordSplits(s: string, k: nat)
    requires 0 < k <= |s| && forall i | 0 <= i < k :: !Space(s[i])
    ensures k <= WordLength(s) && WordLength(s[k..]) == WordLength(s) - k
  {
    var n := WordLength(s);
    assert k <= n;
    assert forall i | 0 <= i < n - k :: s[k..][i] == s[i + k];
    WordLengthIs(s[k..], n - k);
  }

  lemma WholeWord(s: string)
    requires s != "" && !Space(s[0])
    ensures Further(Words(s)) == " " + Left(s, false)
  {
    JoinedFirst(Words(s));
    assert Words(s)[1..] == Words(s[WordLength(s)..]);
  }

  lemma LeftIs(s: string, n: nat, word: string, behind: string, others: string)
    requires n == WordLength(s) && word == s[..n] && behind == s[n..] && others == Further(Words(behind))
    ensures Left(s, false) == word + others
  {
  }

  lemma LeftInWord(s: string, k: nat)
    requires 0 < k <= |s| && forall i | 0 <= i < k :: !Space(s[i])
    ensures Left(s, false) == s[..k] + Left(s[k..], false)
  {
    var n, t := WordLength(s), s[k..];
    WordSplits(s, k);
    SlicesAgree(s, k, n);
    var others := Further(Words(s[n..]));
    LeftIs(s, n, s[..n], s[n..], others);
    LeftIs(t, n - k, t[..n - k], s[n..], others);
    Assoc(s[..k], t[..n - k], others);
  }

  /** A character of k bytes. */
  lemma LeftAfterChar(s: string, pending: bool, k: nat)
    requires 0 < k <= |s| && forall i | 0 <= i < k :: !Space(s[i])
    ensures Left(s, pending) == if pending then " " + (s[..k] + Left(s[k..], false)) else s[..k] + Left(s[k..], false)
  {
    LeftInWord(s, k);
    if pending { WholeWord(s); }
  }

  /** Reading one character of a text without markup. */
  lemma PlainChar(u: bool, s: string, more: string)
    requires s != "" && s[0] != '&' && WellEncoded(u, s) && !Space(s[0])
    ensures var k := FirstLength(u, s);
            && k <= |s| && (forall i | 0 <= i < k :: !Space(s[i])) && WellEncoded(u, s[k..])
            && GetChar(u, s + more) == Char(s[k..] + more, s[..k])
  {
    var k := FirstLength(u, s);
    assert (s + more)[0] == s[0];
    assert (s + more)[..k] == s[..k] && (s + more)[k..] == s[k..] + more;
  }

  predicate Plain(s: string) {
    forall c <- s :: c != '<' && c != '&'
  }

  lemma SpaceStep(u: bool, s: string, more: string, pending: bool, acc: string)
    requires s != "" && Space(s[0])
    ensures ReadCondensed(u, s + more, "<", pending, acc) == ReadCondensed(u, s[1..] + more, "<", true, acc)
  {
    assert (s + more)[1..] == s[1..] + more && (s + more)[0] == s[0];
  }

  lemma CharStep(u: bool, s: string, more: string, pending: bool, acc: string, read: string)
    requires s != "" && !Space(s[0]) && s[0] != '<' && s[0] != '&' && WellEncoded(u, s)
    requires read == (if pending then acc + " " else acc) + s[..FirstLength(u, s)]
    ensures ReadCondensed(u, s + more, "<", pending, acc)
         == ReadCondensed(u, s[FirstLength(u, s)..] + more, "<", false, read)
  {
    PlainChar(u, s, more);
    assert (s + more)[0] == s[0];
  }

  lemma LeftGrouped(s: string, pending: bool, k: nat, acc: string, read: string)
    requires 0 < k <= |s| && forall i | 0 <= i < k :: !Space(s[i])
    requires read == (if pending then acc + " " else acc) + s[..k]
    ensures read + Left(s[k..], false) == acc + Left(s, pending)
  {
    LeftAfterChar(s, pending, k);
    var more := Left(s[k..], false);
    if pending {
      Assoc(acc + " ", s[..k], more);
      Assoc(acc, " ", s[..k] + more);
    } else {
      Assoc(acc, s[..k], more);
    }
  }

  lemma PlainTail(u: bool, s: string, k: nat)
    requires s != "" && Plain(s) && WellEncoded(u, s) && k == FirstLength(u, s)
    ensures k <= |s| && Plain(s[k..]) && WellEncoded(u, s[k..]) && s[0] != '<' && s[0] != '&'
  {
    assert s[0] in s && forall c <- s[k..] :: c in s;
  }

  lemma {:induction false} CondensesLeft(u: bool, s: string, more: string, pending: bool, acc: string)
    requires Plain(s) && WellEncoded(u, s) && "<" <= more
    ensures ReadCondensed(u, s + more, "<", pending, acc) == TextResult(At(more), acc + Left(s, pending))
    decreases |s|
  {
    if s == "" {
      assert s + more == more && acc + "" == acc;
    } else if Space(s[0]) {
      PlainTail(u, s, 1);
      SpaceStep(u, s, more, pending, acc);
      CondensesLeft(u, s[1..], more, true, acc);
      LeftAfterSpace(s, pending);
    } else {
      var k := FirstLength(u, s);
      var read := (if pending then acc + " " else acc) + s[..k];
      PlainTail(u, s, k);
      PlainChar(u, s, more);
      CharStep(u, s, more, pending, acc, read);
      CondensesLeft(u, s[k..], more, false, read);
      LeftGrouped(s, pending, k, acc, read);
    }
  }

  lemma {:induction false} DropInFront(u: bool, s: string, more: string)
    requires "<" <= more
    ensures DropWhiteSpace(u, s + more) == DropWhiteSpace(u, s) + more
    decreases |s|
  {
    if s == "" {
      assert s + more == more;
    } else {
      MarkInFront(s, more);
      if u && IsMark(s) {
        assert (s + more)[3..] == s[3..] + more;
        DropInFront(u, s[3..], more);
      } else if IsWhiteSpace(s[0]) {
        assert (s + more)[1..] == s[1..] + more;
        DropInFront(u, s[1..], more);
      }
    }
  }

  lemma MarkInFront(s: string, more: string)
    requires s != "" && "<" <= more
    ensures IsMark(s + more) <==> IsMark(s)
    ensures (s + more)[0] == s[0]
  {
    assert |s| < 3 ==> (s + more)[|s|] == '<';
  }

  lemma {:induction false} WordsAfterDrop(s: string)
    ensures Words(DropWhiteSpace(false, s)) == Words(s)
  {
    if s != "" && IsWhiteSpace(s[0]) { WordsAfterDrop(s[1..]); }
  }

  lemma {:induction false} DropKeepsCharacters(u: bool, s: string)
    requires WellEncoded(u, s) && Plain(s)
    ensures WellEncoded(u, DropWhiteSpace(u, s)) && Plain(DropWhiteSpace(u, s))
  {
    if s != "" {
      if u && IsMark(s) {
        assert forall c <- s[3..] :: c in s;
        DropKeepsCharacters(u, s[3..]);
      } else if IsWhiteSpace(s[0]) {
        assert forall c <- s[1..] :: c in s;
        assert WellEncoded(u, s[1..]);
        DropKeepsCharacters(u, s[1..]);
      }
    }
  }

  /** The text of an element is read as its words with one space between them; in UTF-8 the marks in front
      of it are left out. */
  lemma CondensedWords(u: bool, s: string, r: string)
    requires Plain(s) && WellEncoded(u, s)
    ensures ReadText(u, At(s + ("<" + r)), "<", true)
         == TextResult(At("<" + r), Joined(Words(if u then DropWhiteSpace(true, s) else s)))
  {
    var more, t := "<" + r, DropWhiteSpace(u, s);
    DropInFront(u, s, more);
    DropKeepsCharacters(u, s);
    CondensesLeft(u, t, more, false, "");
    WordsAfterDrop(s);
    LeftAtStart(u, s);
  }

  lemma LeftAtStart(u: bool, s: string)
    ensures var t := DropWhiteSpace(u, s); "" + Left(t, false) == Joined(Words(t))
  {
    var t := DropWhiteSpace(u, s);
    if t == "" {
      assert Left(t, false) == "";
    } else {
      JoinedFirst(Words(t));
      assert Words(t)[1..] == Words(t[WordLength(t)..]);
    }
  }

  /** Nothing is read from no text, nor from white space alone. */
  lemma NothingToRead(u: bool, p: Ptr, tag: string, trim: bool, w: string)
    requires AllWhiteSpace(w) && w != ""
    ensures !p.At? ==> ReadText(u, p, tag, trim) == TextResult(p, "")
    ensures ReadText(u, At(w), tag, true) == TextResult(At(""), "") && ReadText(u, At(""), tag, true) == TextResult(Null, "")
  {
    assert w + "" == w;
    DropWhiteSpaceConcat(u, w, "");
  }

  // ---- Classes of bytes ----

  /** isspace: the white space of section 2.3 of XML 1.0, and two more. */
  lemma WhiteSpaceIs(c: char)
    ensures IsWhiteSpace(c) <==> c as int in {0x20, 0x09, 0x0D, 0x0A, 0x0B, 0x0C}
  {
  }

  const CAPITALS := "ABCDEFGHIJKLMNOPQRSTUVWXYZ"
  const SMALL := "abcdefghijklmnopqrstuvwxyz"
  const FIGURES := "0123456789"

  /** The NameStartChar of section 2.3 of XML 1.0, among the first 127 characters. */
  predicate XmlNameStart(c: char) { c == ':' || c == '_' || c in CAPITALS || c in SMALL }

  /** And its NameChar. */
  predicate XmlNameChar(c: char) { XmlNameStart(c) || c == '-' || c == '.' || c in FIGURES }

  /** The names of the standard, except that none starts with a colon; and from 127 on everything passes. */
  lemma NameCharactersAre(c: char)
    ensures c as int < 127 ==> (IsNameChar(c) <==> XmlNameChar(c))
    ensures c as int < 127 ==> (IsNameStart(c) <==> XmlNameStart(c) && c != ':')
    ensures c as int >= 127 ==> IsNameStart(c) && IsNameChar(c)
  {
    RowsAre(c);
  }

  lemma RowsAre(c: char)
    ensures c in CAPITALS <==> 'A' <= c <= 'Z'
    ensures c in SMALL <==> 'a' <= c <= 'z'
    ensures c in FIGURES <==> '0' <= c <= '9'
  {
    InRow(CAPITALS, 'A', c);
    InRow(SMALL, 'a', c);
    InRow(FIGURES, '0', c);
  }

  /** A row of characters that follow one another. */
  lemma InRow(row: string, first: char, c: char)
    requires first as int + |row| < 128 && forall i | 0 <= i < |row| :: row[i] as int == first as int + i
    ensures c in row <==> first as int <= c as int < first as int + |row|
  {
    if first as int <= c as int < first as int + |row| { assert row[c as int - first as int] == c; }
  }

  /** Case is ignored for the letters alone. */
  lemma ToLowerIs(c: char)
    ensures forall i | 0 <= i < 26 :: ToLower(CAPITALS[i]) == SMALL[i]
    ensures c !in CAPITALS ==> ToLower(c) == c
  {
    RowsAre(c);
  }

  /** What is skipped like white space in UTF-8: the byte order mark and the two noncharacters at the end
      of the first plane. */
  lemma MarksAre(s: string)
    ensures IsMark(s) <==>
      OctetText(Utf8(0xFEFF)) <= s || OctetText(Utf8(0xFFFE)) <= s || OctetText(Utf8(0xFFFF)) <= s
  {
    MarkOctets();
    TextOf([0xEF, 0xBB, 0xBF]);
    TextOf([0xEF, 0xBF, 0xBE]);
    TextOf([0xEF, 0xBF, 0xBF]);
    StartsWith(s, 0xEF, 0xBB, 0xBF);
    StartsWith(s, 0xEF, 0xBF, 0xBE);
    StartsWith(s, 0xEF, 0xBF, 0xBF);
  }

  lemma MarkOctets()
    ensures Utf8(0xFEFF) == [0xEF, 0xBB, 0xBF] && Utf8(0xFFFE) == [0xEF, 0xBF, 0xBE] && Utf8(0xFFFF) == [0xEF, 0xBF, 0xBF]
  {
  }

  lemma TextOf(octets: seq<bv32>)
    requires |octets| == 3
    ensures OctetText(octets)
         == [(octets[0] as int % 256) as char, (octets[1] as int % 256) as char, (octets[2] as int % 256) as char]
  {
  }

  lemma StartsWith(s: string, a: nat, b: nat, c: nat)
    requires a < 0x100 && b < 0x100 && c < 0x100
    ensures [a as char, b as char, c as char] <= s <==>
      |s| >= 3 && s[0] as int == a && s[1] as int == b && s[2] as int == c
  {
    var t := [a as char, b as char, c as char];
    assert t <= s <==> |s| >= 3 && s[..3] == t;
  }
}
