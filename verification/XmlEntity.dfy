/** Character and entity references: GetEntity, ConvertUTF32ToUTF8, utf8ByteTable and GetChar. */
module XmlEntity {
  import opened Options
  import opened XmlText

  // ---- Numeric references ----

  /** `unsigned` and, on the Windows targets of this program, `unsigned long` are 32 bits wide. */
  const WORD: nat := 0x1_0000_0000

  function Radix(hex: bool): nat { if hex then 16 else 10 }

  /** The character the right-to-left scan stops at. */
  function StopChar(hex: bool): char { if hex then 'x' else '#' }

  function DigitValue(c: char, hex: bool): Option<nat> {
    if '0' <= c <= '9' then Some((c - '0') as nat)
    else if hex && 'a' <= c <= 'f' then Some((c - 'a') as nat + 10)
    else if hex && 'A' <= c <= 'F' then Some((c - 'A') as nat + 10)
    else None
  }

  /** The scan of GetEntity from position q leftwards, with its wrapping arithmetic. */
  function ScanBack(s: string, q: nat, hex: bool, mult: nat, ucs: nat): (r: Option<nat>)
    requires q < |s|
    ensures r.Some? && ucs < WORD ==> r.value < WORD
    decreases q
  {
    if s[q] == StopChar(hex) then Some(ucs)
    else match DigitValue(s[q], hex)
      case None => None
      case Some(d) =>
        if q == 0 then None
        else ScanBack(s, q - 1, hex, mult * Radix(hex) % WORD, (ucs + mult * d % WORD) % WORD)
  }

  predicate AllDigits(ds: string, hex: bool) {
    forall c <- ds :: DigitValue(c, hex).Some?
  }

  /** The positional value of a digit string, section 4.1 of XML 1.0. */
  function Positional(ds: string, hex: bool): nat
    requires AllDigits(ds, hex)
  {
    if ds == "" then 0
    else
      assert ds[|ds| - 1] in ds;
      Positional(ds[..|ds| - 1], hex) * Radix(hex) + DigitValue(ds[|ds| - 1], hex).value
  }

  lemma ModMul(a: nat, b: nat)
    ensures a % WORD * b % WORD == a * b % WORD
  {
    var k := a / WORD;
    assert a * b == (a % WORD) * b + WORD * (k * b) by {
      assert a == WORD * k + a % WORD;
      assert (WORD * k + a % WORD) * b == (a % WORD) * b + WORD * (k * b);
    }
    ModShift((a % WORD) * b, k * b);
  }

  lemma ModShift(x: nat, k: nat)
    ensures (x + WORD * k) % WORD == x % WORD
  {
  }

  lemma ModAdd(u: nat, x: nat)
    ensures (u % WORD + x % WORD) % WORD == (u + x) % WORD
  {
  }

  /** One digit: the wrapped step agrees with the exact one. */
  lemma WrapStep(mult: nat, ucs: nat, m: nat, u: nat, total: nat, d: nat, radix: nat, higher: nat)
    returns (m': nat, u': nat, total': nat)
    requires mult == m % WORD && ucs == u % WORD && total == m * (higher * radix + d)
    ensures mult * radix % WORD == m' % WORD
    ensures (ucs + mult * d % WORD) % WORD == u' % WORD
    ensures total' == m' * higher && u' + total' == u + total
  {
    m', u', total' := m * radix, u + m * d, (m * radix) * higher;
    ModMul(m, radix);
    ModMul(m, d);
    ModAdd(u, m * d);
    Distribute(m, radix, higher, d);
  }

  lemma Distribute(m: nat, radix: nat, higher: nat, d: nat)
    ensures m * d + (m * radix) * higher == m * (higher * radix + d)
  {
  }

  /** The scan computes the positional value modulo the word size, whatever m and u have wrapped to. */
  lemma {:induction false} ScanBackValue(s: string, stop: nat, q: nat, hex: bool,
                                         mult: nat, ucs: nat, m: nat, u: nat, total: nat)
    requires stop <= q < |s| && s[stop] == StopChar(hex)
    requires AllDigits(s[stop + 1..q + 1], hex)
    requires mult == m % WORD && ucs == u % WORD
    requires total == m * Positional(s[stop + 1..q + 1], hex)
    ensures ScanBack(s, q, hex, mult, ucs) == Some((u + total) % WORD)
    decreases q
  {
    if q == stop {
      assert total == m * 0;
    } else {
      LastDigit(s, stop, q, hex);
      var d, higher := DigitValue(s[q], hex).value, Positional(s[stop + 1..q], hex);
      var m', u', total' := WrapStep(mult, ucs, m, u, total, d, Radix(hex), higher);
      ScanBackValue(s, stop, q - 1, hex, m' % WORD, u' % WORD, m', u', total');
      ScanUnfold(s, q, hex, mult, ucs);
    }
  }

  lemma ScanUnfold(s: string, q: nat, hex: bool, mult: nat, ucs: nat)
    requires 0 < q < |s| && s[q] != StopChar(hex) && DigitValue(s[q], hex).Some?
    ensures var d := DigitValue(s[q], hex).value;
            ScanBack(s, q, hex, mult, ucs)
            == ScanBack(s, q - 1, hex, mult * Radix(hex) % WORD, (ucs + mult * d % WORD) % WORD)
  {
  }

  lemma LastDigit(s: string, stop: nat, q: nat, hex: bool)
    requires stop < q < |s| && AllDigits(s[stop + 1..q + 1], hex)
    ensures DigitValue(s[q], hex).Some? && AllDigits(s[stop + 1..q], hex)
    ensures Positional(s[stop + 1..q + 1], hex)
         == Positional(s[stop + 1..q], hex) * Radix(hex) + DigitValue(s[q], hex).value
    ensures s[q] != StopChar(hex)
  {
    var ds := s[stop + 1..q + 1];
    assert s[q] == ds[|ds| - 1] && ds[|ds| - 1] in ds;
    assert ds[..|ds| - 1] == s[stop + 1..q];
    assert forall c <- s[stop + 1..q] :: c in ds;
  }

  // ---- UTF-8 ----

  function Utf8Length(v: bv32): nat {
    if v < 0x80 then 1 else if v < 0x800 then 2 else if v < 0x10000 then 3
    else if v < 0x200000 then 4 else 0
  }

  function FirstByteMark(length: nat): bv32 {
    match length
    case 2 => 0xC0
    case 3 => 0xE0
    case 4 => 0xF0
    case _ => 0
  }

  /** Octets are bv32 values below 0x100. */
  function Trail(v: bv32): bv32 {
    (v | 0x80) & 0xBF
  }

  function Lead(v: bv32, length: nat): bv32 {
    (v | FirstByteMark(length)) & 0xFF
  }

  function Utf8(v: bv32): seq<bv32> {
    match Utf8Length(v)
    case 1 => [Lead(v, 1)]
    case 2 => [Lead(v >> 6, 2), Trail(v)]
    case 3 => [Lead(v >> 12, 3), Trail(v >> 6), Trail(v)]
    case 4 => [Lead(v >> 18, 4), Trail(v >> 12), Trail(v >> 6), Trail(v)]
    case _ => []
  }

  /** The falling-through switch that fills the output from its last byte to its first. */
  method ConvertUTF32ToUTF8(v: bv32, output: array<bv32>) returns (length: nat)
    requires output.Length >= 4
    modifies output
    ensures length == Utf8Length(v) <= 4
    ensures output[..length] == Utf8(v)
  {
    length := if v < 0x80 then 1 else if v < 0x800 then 2 else if v < 0x10000 then 3
              else if v < 0x200000 then 4 else 0;
    if length == 0 { return; }
    var input, out := v, length;
    if length >= 4 {
      out := out - 1;
      output[out] := Trail(input);
      input := input >> 6;
    }
    if length >= 3 {
      out := out - 1;
      output[out] := Trail(input);
      input := input >> 6;
    }
    if length >= 2 {
      out := out - 1;
      output[out] := Trail(input);
      input := input >> 6;
    }
    output[out - 1] := Lead(input, length);
    ShiftTwice(v);
  }

  lemma ShiftTwice(v: bv32)
    ensures (v >> 6) >> 6 == v >> 12
    ensures ((v >> 6) >> 6) >> 6 == v >> 18
  {
  }

  predicate IsTail(b: bv32) { b < 0x100 && b & 0xC0 == 0x80 }

  function Low6(b: bv32): bv32 { b & 0x3F }

  // The octet patterns of section 3 of RFC 3629, and the value each pattern carries.

  predicate Form2(b0: bv32, b1: bv32) {
    b0 < 0x100 && b0 & 0xE0 == 0xC0 && IsTail(b1)
  }

  predicate Form3(b0: bv32, b1: bv32, b2: bv32) {
    b0 < 0x100 && b0 & 0xF0 == 0xE0 && IsTail(b1) && IsTail(b2)
  }

  predicate Form4(b0: bv32, b1: bv32, b2: bv32, b3: bv32) {
    b0 < 0x100 && b0 & 0xF8 == 0xF0 && IsTail(b1) && IsTail(b2) && IsTail(b3)
  }

  function Decode2(b0: bv32, b1: bv32): bv32 {
    ((b0 & 0x1F) << 6) | Low6(b1)
  }

  function Decode3(b0: bv32, b1: bv32, b2: bv32): bv32 {
    ((b0 & 0x0F) << 12) | (Low6(b1) << 6) | Low6(b2)
  }

  function Decode4(b0: bv32, b1: bv32, b2: bv32, b3: bv32): bv32 {
    ((b0 & 0x07) << 18) | (Low6(b1) << 12) | (Low6(b2) << 6) | Low6(b3)
  }

  /** The octets are the shortest-form encoding of v. */
  predicate EncodesRfc3629(b: seq<bv32>, v: bv32) {
    match |b|
    case 1 => b[0] == v && v < 0x80
    case 2 => Form2(b[0], b[1]) && Decode2(b[0], b[1]) == v && 0x80 <= v < 0x800
    case 3 => Form3(b[0], b[1], b[2]) && Decode3(b[0], b[1], b[2]) == v && 0x800 <= v < 0x10000
    case 4 => Form4(b[0], b[1], b[2], b[3]) && Decode4(b[0], b[1], b[2], b[3]) == v && 0x10000 <= v < 0x110000
    case _ => false
  }

  lemma Bits1(v: bv32)
    requires v < 0x80
    ensures Lead(v, 1) == v
  {
  }

  lemma Bits2(v: bv32)
    requires v < 0x800
    ensures Decode2(Lead(v >> 6, 2), Trail(v)) == v && Form2(Lead(v >> 6, 2), Trail(v))
  {
  }

  lemma Bits3(v: bv32)
    requires v < 0x10000
    ensures Decode3(Lead(v >> 12, 3), Trail(v >> 6), Trail(v)) == v
    ensures Form3(Lead(v >> 12, 3), Trail(v >> 6), Trail(v))
  {
  }

  lemma Bits4(v: bv32)
    requires v < 0x200000
    ensures Decode4(Lead(v >> 18, 4), Trail(v >> 12), Trail(v >> 6), Trail(v)) == v
    ensures Form4(Lead(v >> 18, 4), Trail(v >> 12), Trail(v >> 6), Trail(v))
  {
  }

  /** The bytes written are the RFC 3629 encoding of the value, and decode back to it,
      exactly for the values below U+110000. */
  lemma Utf8IsRfc3629(v: bv32)
    ensures EncodesRfc3629(Utf8(v), v) <==> v < 0x110000
  {
    if v < 0x80 { Bits1(v); }
    else if v < 0x800 { Bits2(v); }
    else if v < 0x10000 { Bits3(v); }
    else if v < 0x110000 { Bits4(v); }
  }

  /** Beyond that, four octets still decode to the value below 2 to the 21, and no octet is written from there on. */
  lemma Utf8BeyondUnicode(v: bv32)
    ensures Utf8(v) == [] <==> v >= 0x200000
    ensures 0x110000 <= v < 0x200000 ==>
              |Utf8(v)| == 4 && var b := Utf8(v); Form4(b[0], b[1], b[2], b[3]) && Decode4(b[0], b[1], b[2], b[3]) == v
  {
    if 0x110000 <= v < 0x200000 { Bits4(v); }
  }

  // ---- GetEntity ----

  /** What GetEntity finds at an ampersand, and the text that follows it.  Unresolved stands for
      its failing return of the zero pointer with no character. */
  datatype Entity = Unresolved | Numeric(rest: string, ucs: nat) | Literal(rest: string, c: char)

  /** strchr, started at position k; the length when there is no such character. */
  function Find(s: string, c: char, k: nat): (q: nat)
    requires k <= |s|
    ensures k <= q <= |s| && (q < |s| ==> s[q] == c)
    ensures forall i | k <= i < q :: s[i] != c
    decreases |s| - k
  {
    if k == |s| || s[k] == c then k else Find(s, c, k + 1)
  }

  lemma FindIs(s: string, c: char, k: nat, q: nat)
    requires k <= q < |s| && s[q] == c
    requires forall i | k <= i < q :: s[i] != c
    ensures Find(s, c, k) == q
  {
  }

  const ENTITIES: seq<(string, char)> :=
    [("&amp;", '&'), ("&lt;", '<'), ("&gt;", '>'), ("&quot;", '"'), ("&apos;", '\'')]

  function NamedEntity(s: string, i: nat): (r: Entity)
    requires s != "" && i <= |ENTITIES|
    ensures r.Literal? && |r.rest| < |s|
    decreases |ENTITIES| - i
  {
    if i == |ENTITIES| then Literal(s[1..], s[0])
    else if ENTITIES[i].0 <= s then Literal(s[|ENTITIES[i].0|..], ENTITIES[i].1)
    else NamedEntity(s, i + 1)
  }

  /** The first digit of a numeric reference. */
  function FirstDigit(s: string): nat
    requires |s| > 2
  {
    if s[2] == 'x' then 3 else 2
  }

  function NumericEntity(s: string): (r: Entity)
    requires |s| > 2 && s[0] == '&' && s[1] == '#'
    ensures !r.Unresolved? ==> |r.rest| < |s|
    ensures r.Unresolved? || (r.Numeric? && r.ucs < WORD)
  {
    var q := Find(s, ';', FirstDigit(s));
    if q == |s| then Unresolved
    else match ScanBack(s, q - 1, s[2] == 'x', 1, 0)
      case None => Unresolved
      case Some(ucs) => Numeric(s[q + 1..], ucs)
  }

  function GetEntity(s: string): (r: Entity)
    requires s != "" && s[0] == '&'
    ensures !r.Unresolved? ==> |r.rest| < |s|
  {
    if |s| > 2 && s[1] == '#' then NumericEntity(s) else NamedEntity(s, 0)
  }

  method GetEntityLoop(s: string) returns (r: Entity)
    requires s != "" && s[0] == '&'
    ensures r == GetEntity(s)
  {
    if |s| > 2 && s[1] == '#' {
      var hex := s[2] == 'x';
      var end := Find(s, ';', FirstDigit(s));
      if end == |s| { return Unresolved; }
      var q: nat, ucs: nat, mult: nat := end - 1, 0, 1;
      while s[q] != StopChar(hex)
        invariant q < end
        invariant ScanBack(s, q, hex, mult, ucs) == ScanBack(s, end - 1, hex, 1, 0)
        decreases q
      {
        var digit := DigitValue(s[q], hex);
        if digit == None || q == 0 { return Unresolved; }
        ucs := (ucs + mult * digit.value % WORD) % WORD;
        mult := mult * Radix(hex) % WORD;
        q := q - 1;
      }
      return Numeric(s[end + 1..], ucs);
    }
    for i := 0 to |ENTITIES|
      invariant NamedEntity(s, i) == NamedEntity(s, 0)
    {
      if ENTITIES[i].0 <= s {
        return Literal(s[|ENTITIES[i].0|..], ENTITIES[i].1);
      }
    }
    r := Literal(s[1..], s[0]);
  }

  function Prefix(hex: bool): string { if hex then "&#x" else "&#" }

  /** A well-formed numeric reference, however many leading zeros it has, yields its positional
      value modulo the word size: the value itself exactly when that fits in 32 bits. */
  lemma NumericReference(s: string, ds: string, hex: bool, rest: string)
    requires s == Prefix(hex) + ds + ";" + rest
    requires AllDigits(ds, hex)
    ensures GetEntity(s) == Numeric(rest, Positional(ds, hex) % WORD)
    ensures GetEntity(s) == Numeric(rest, Positional(ds, hex)) <==> Positional(ds, hex) < WORD
  {
    NumericShape(Prefix(hex), ds, rest, s);
    var first := |Prefix(hex)|;
    assert FirstDigit(s) == first by { assert ds != "" ==> ds[0] in ds && s[first] == ds[0]; }
    NumericAt(s, first + |ds|, hex);
    assert GetEntity(s) == Numeric(rest, Positional(ds, hex) % WORD);
    FitsWord(Positional(ds, hex));
  }

  lemma FitsWord(v: nat)
    ensures v % WORD == v <==> v < WORD
  {
  }

  lemma NumericShape(head: string, ds: string, rest: string, s: string)
    requires s == head + ds + ";" + rest
    ensures s[..|head|] == head && s[|head|..|head| + |ds|] == ds
    ensures s[|head| + |ds|] == ';' && s[|head| + |ds| + 1..] == rest
    ensures forall i | 0 <= i < |head| :: s[i] == head[i]
  {
  }

  lemma NumericAt(s: string, end: nat, hex: bool)
    requires 2 < |s| && s[0] == '&' && s[1] == '#' && (s[2] == 'x') == hex
    requires FirstDigit(s) <= end < |s| && s[end] == ';' && AllDigits(s[FirstDigit(s)..end], hex)
    ensures GetEntity(s) == Numeric(s[end + 1..], Positional(s[FirstDigit(s)..end], hex) % WORD)
  {
    var first := FirstDigit(s);
    FindAfterDigits(s, first, end, hex);
    ScanBackValue(s, first - 1, end - 1, hex, 1, 0, 1, 0, Positional(s[first..end], hex));
  }

  lemma FindAfterDigits(s: string, first: nat, end: nat, hex: bool)
    requires first <= end < |s| && AllDigits(s[first..end], hex) && s[end] == ';'
    ensures Find(s, ';', first) == end
  {
    assert forall i | first <= i < end :: s[i] == s[first..end][i - first] && s[first..end][i - first] in s[first..end];
    FindIs(s, ';', first, end);
  }

  // ---- Numerals ----

  const DECIMAL: string := "0123456789"
  const LOWER: string := "0123456789abcdef"
  const UPPER: string := "0123456789ABCDEF"

  /** A number written with ten or sixteen digits. */
  function Numeral(digits: string, n: nat): (ds: string)
    requires |digits| == 10 || |digits| == 16
    ensures ds != ""
  {
    if n < |digits| then [digits[n]]
    else if |digits| == 10 then Numeral(digits, n / 10) + [digits[n % 10]]
    else Numeral(digits, n / 16) + [digits[n % 16]]
  }

  /** The digits, in either case where they are letters, have the values of their places in these rows. */
  lemma DigitsAre(c: char, d: nat)
    ensures DigitValue(c, false) == Some(d) <==> d < 10 && c == DECIMAL[d]
    ensures DigitValue(c, true) == Some(d) <==> d < 16 && (c == LOWER[d] || c == UPPER[d])
  {
  }

  predicate DigitsFor(digits: string, hex: bool) {
    if hex then digits == LOWER || digits == UPPER else digits == DECIMAL
  }

  lemma {:induction false} PositionalOfNumeral(digits: string, n: nat, hex: bool)
    requires DigitsFor(digits, hex)
    ensures AllDigits(Numeral(digits, n), hex) && Positional(Numeral(digits, n), hex) == n
  {
    if n < |digits| {
      LastValue("", digits, n, hex);
    } else if hex {
      PositionalOfNumeral(digits, n / 16, hex);
      LastValue(Numeral(digits, n / 16), digits, n % 16, hex);
    } else {
      PositionalOfNumeral(digits, n / 10, hex);
      LastValue(Numeral(digits, n / 10), digits, n % 10, hex);
    }
  }

  lemma LastValue(front: string, digits: string, d: nat, hex: bool)
    requires DigitsFor(digits, hex) && d < |digits| && AllDigits(front, hex)
    ensures var ds := front + [digits[d]];
            AllDigits(ds, hex) && Positional(ds, hex) == Positional(front, hex) * (if hex then 16 else 10) + d
  {
    DigitsAre(digits[d], d);
    var ds := front + [digits[d]];
    assert ds[..|ds| - 1] == front;
  }

  /** A reference to n, written in decimal or with hexadecimal digits of either case, yields n in 32 bits. */
  lemma NumeralReference(n: nat, rest: string)
    ensures GetEntity("&#" + Numeral("0123456789", n) + ";" + rest) == Numeric(rest, n % 0x1_0000_0000)
    ensures GetEntity("&#x" + Numeral("0123456789abcdef", n) + ";" + rest) == Numeric(rest, n % 0x1_0000_0000)
    ensures GetEntity("&#x" + Numeral("0123456789ABCDEF", n) + ";" + rest) == Numeric(rest, n % 0x1_0000_0000)
  {
    NumeralReads(DECIMAL, n, false, rest);
    NumeralReads(LOWER, n, true, rest);
    NumeralReads(UPPER, n, true, rest);
  }

  lemma NumeralReads(digits: string, n: nat, hex: bool, rest: string)
    requires DigitsFor(digits, hex)
    ensures GetEntity(Prefix(hex) + Numeral(digits, n) + ";" + rest) == Numeric(rest, n % WORD)
  {
    PositionalOfNumeral(digits, n, hex);
    NumericReference(Prefix(hex) + Numeral(digits, n) + ";" + rest, Numeral(digits, n), hex, rest);
  }

  // ---- What else has the form of a reference ----

  /** The digits in front of the semicolon count back to the character the scan stops at, whatever stands
      before that; any other character in front of them spoils the reference. */
  lemma DigitsBehind(s: string, before: string, c: char, ds: string, hex: bool, rest: string)
    requires s == Prefix(hex) + before + [c] + ds + ";" + rest && ';' !in before && c != ';'
    requires AllDigits(ds, hex) && DigitValue(c, hex).None? && (hex || (before + [c])[0] != 'x')
    ensures GetEntity(s) == if c == StopChar(hex) then Numeric(rest, Positional(ds, hex) % WORD) else Unresolved
  {
    var head := Prefix(hex) + before + [c];
    NumericShape(head, ds, rest, s);
    HeadShape(hex, before, c, head);
    HeadOf(s, head, hex);
    var at, end := |head| - 1, |head| + |ds|;
    assert s[at] == c && s[at + 1..end] == ds && s[end + 1..] == rest;
    ScanAt(s, at, end, hex);
  }

  lemma HeadOf(s: string, head: string, hex: bool)
    requires |Prefix(hex)| < |head| < |s| && forall i | 0 <= i < |head| :: s[i] == head[i]
    requires head[0] == '&' && head[1] == '#' && (head[2] == 'x') == hex
    requires forall i | |Prefix(hex)| <= i < |head| :: head[i] != ';'
    ensures s[0] == '&' && s[1] == '#' && (s[2] == 'x') == hex && FirstDigit(s) == |Prefix(hex)|
    ensures forall i | FirstDigit(s) <= i <= |head| - 1 :: s[i] != ';'
  {
  }

  lemma HeadShape(hex: bool, before: string, c: char, head: string)
    requires head == Prefix(hex) + before + [c] && ';' !in before && c != ';'
    ensures |head| > 2 && head[0] == '&' && head[1] == '#' && head[|head| - 1] == c
    ensures if hex then head[2] == 'x' else head[2] == (before + [c])[0]
    ensures forall i | |Prefix(hex)| <= i < |head| :: head[i] != ';'
  {
    assert forall i | |Prefix(hex)| <= i < |head| - 1 :: head[i] == before[i - |Prefix(hex)|];
  }

  lemma ScanAt(s: string, at: nat, end: nat, hex: bool)
    requires 2 < |s| && s[0] == '&' && s[1] == '#' && (s[2] == 'x') == hex
    requires FirstDigit(s) <= at < end < |s| && s[end] == ';' && (forall i | FirstDigit(s) <= i <= at :: s[i] != ';')
    requires AllDigits(s[at + 1..end], hex) && DigitValue(s[at], hex).None?
    ensures GetEntity(s) == if s[at] == StopChar(hex) then Numeric(s[end + 1..], Positional(s[at + 1..end], hex) % WORD)
                            else Unresolved
  {
    FindSemicolon(s, FirstDigit(s), at, end, hex);
    if s[at] == StopChar(hex) {
      ScanBackValue(s, at, end - 1, hex, 1, 0, 1, 0, Positional(s[at + 1..end], hex));
    } else {
      ScanBackFails(s, at, end - 1, hex, 1, 0);
    }
  }

  /** So does a missing semicolon. */
  lemma NoSemicolon(s: string)
    requires |s| > 2 && s[0] == '&' && s[1] == '#' && ';' !in s
    ensures GetEntity(s) == Unresolved
  {
    assert Find(s, ';', FirstDigit(s)) == |s|;
  }

  lemma FindSemicolon(s: string, first: nat, at: nat, end: nat, hex: bool)
    requires first <= at < end < |s| && s[end] == ';' && (forall i | first <= i <= at :: s[i] != ';')
    requires AllDigits(s[at + 1..end], hex)
    ensures Find(s, ';', first) == end
  {
    assert forall i | at < i < end :: s[i] == s[at + 1..end][i - at - 1] && s[i] in s[at + 1..end];
    FindIs(s, ';', first, end);
  }

  lemma {:induction false} ScanBackFails(s: string, bad: nat, q: nat, hex: bool, mult: nat, ucs: nat)
    requires bad <= q < |s| && DigitValue(s[bad], hex).None? && s[bad] != StopChar(hex)
    requires AllDigits(s[bad + 1..q + 1], hex)
    ensures ScanBack(s, q, hex, mult, ucs) == None
    decreases q
  {
    if q > bad {
      LastDigit(s, bad, q, hex);
      var d := DigitValue(s[q], hex).value;
      ScanBackFails(s, bad, q - 1, hex, mult * Radix(hex) % WORD, (ucs + mult * d % WORD) % WORD);
    }
  }

  // ---- From a reference to bytes ----

  function OctetText(octets: seq<bv32>): string {
    seq(|octets|, i requires 0 <= i < |octets| => (octets[i] as int % 256) as char)
  }

  /** In which line of the table an octet is. */
  lemma OctetRange(b: bv32)
    requires b < 0x100
    ensures var c := (b as int % 256) as char;
            SequenceLength(c) == if b < 0xC2 then 1 else if b < 0xE0 then 2 else if b < 0xF0 then 3
                                 else if b < 0xF5 then 4 else 1
  {
  }

  /** The lead octets written for a value of this length. */
  lemma LeadRange(v: bv32)
    requires 0 < Utf8Length(v)
    ensures var b := Utf8(v)[0];
            && b < 0x100
            && (v < 0x80 ==> b < 0x80)
            && (0x80 <= v < 0x800 ==> 0xC2 <= b < 0xE0)
            && (0x800 <= v < 0x10000 ==> 0xE0 <= b < 0xF0)
            && (0x10000 <= v ==> 0xF0 <= b && (b < 0xF5 <==> v < 0x140000))
  {
  }

  /** The table announces the number of octets written, for exactly the values below U+140000. */
  lemma Utf8LengthMatchesTable(v: bv32)
    requires 0 < Utf8Length(v)
    ensures var bytes := OctetText(Utf8(v)); |bytes| == SequenceLength(bytes[0]) <==> v < 0x140000
  {
    LeadRange(v);
    OctetRange(Utf8(v)[0]);
  }

  /** A number as an unsigned of 32 bits. */
  function Cut(n: nat): bv32 { (n % WORD) as bv32 }

  /** What a reference turns into: UTF-8, or outside UTF-8 the value cut down to one byte. */
  function Expand(e: Entity, utf8: bool): string {
    match e
    case Unresolved => ""
    case Literal(_, c) => [c]
    case Numeric(_, ucs) => if utf8 then OctetText(Utf8(Cut(ucs))) else [LegacyByte(ucs)]
  }

  /** From the digits to the bytes in the UTF-8 mode: those of the number written, cut to 32 bits,
      and they are its RFC 3629 encoding exactly for the numbers below U+110000. */
  lemma ReferenceToOctets(s: string, ds: string, hex: bool, rest: string)
    requires s == Prefix(hex) + ds + ";" + rest
    requires AllDigits(ds, hex)
    ensures var v := Cut(Positional(ds, hex));
            Expand(GetEntity(s), true) == OctetText(Utf8(v)) && (EncodesRfc3629(Utf8(v), v) <==> v < 0x110000)
  {
    NumericReference(s, ds, hex, rest);
    var n := Positional(ds, hex);
    CutTwice(n);
    assert Expand(Numeric(rest, n % WORD), true) == OctetText(Utf8(Cut(n % WORD)));
    Utf8IsRfc3629(Cut(n));
  }

  lemma CutTwice(n: nat)
    ensures Cut(n % WORD) == Cut(n)
  {
    assert n % WORD % WORD == n % WORD;
  }

  function LegacyByte(ucs: nat): char { (ucs % 256) as char }

  // ---- GetChar ----

  /** The bytes GetChar delivers, and where it leaves the pointer: Beyond is past the NUL, after a
      multi-byte sequence that was broken off. */
  datatype CharResult = NoChar | Beyond | Char(rest: string, text: string)

  function GetChar(u: bool, s: string): (r: CharResult)
    requires s != ""
    ensures r.Char? ==> |r.rest| < |s|
  {
    var length := if u then SequenceLength(s[0]) else 1;
    if length > 1 then (if length <= |s| then Char(s[length..], s[..length]) else Beyond)
    else if s[0] != '&' then Char(s[1..], [s[0]])
    else
      var e := GetEntity(s);
      if e.Unresolved? then NoChar else Char(e.rest, Expand(e, u))
  }

  lemma ByteOf(n: nat, rest: string, s: string)
    requires s != "" && s[0] == '&' && GetEntity(s) == Numeric(rest, n % WORD)
    ensures GetChar(false, s) == Char(rest, [(n % 256) as char])
  {
    assert n == WORD * (n / WORD) + n % WORD;
    assert n % 256 == (n % WORD) % 256;
  }

  /** Outside UTF-8 a reference yields the low byte of its number; so every byte has a reference. */
  lemma ReferenceToByte(n: nat, ds: string, rest: string, s: string)
    requires ds == Numeral("0123456789", n) && s == "&#" + ds + ";" + rest
    ensures s[0] == '&' && GetChar(false, s) == Char(rest, [(n % 256) as char])
  {
    PositionalOfNumeral(DECIMAL, n, false);
    NumericReference(s, ds, false, rest);
    ByteOf(n, rest, s);
  }

  method ReadChar(u: bool, s: string) returns (r: CharResult)
    requires s != ""
    ensures r == GetChar(u, s)
  {
    var length := if u then SequenceLength(s[0]) else 1;
    if length > 1 {
      var value, i := "", 0;
      while i < |s| && i < length
        invariant i <= |s| && i <= length && value == s[..i]
      {
        value := value + [s[i]];
        i := i + 1;
      }
      return if length <= |s| then Char(s[length..], value) else Beyond;
    }
    if s[0] != '&' { return Char(s[1..], [s[0]]); }
    var e := GetEntityLoop(s);
    r := if e.Unresolved? then NoChar else Char(e.rest, Expand(e, u));
  }

  /** A number below 32 becomes the one byte with that value, in UTF-8 too. */
  lemma SmallExpands(n: nat, u: bool, rest: string)
    requires n < 32
    ensures Expand(Numeric(rest, n), u) == [n as char]
  {
    SmallCut(n);
    SmallOctet(Cut(n));
  }

  lemma SmallOctet(v: bv32)
    requires v < 0x80
    ensures OctetText(Utf8(v)) == [(v as int % 256) as char]
  {
    Bits1(v);
    assert Utf8(v) == [v];
  }

  lemma SmallCut(n: nat)
    requires n < 32
    ensures Cut(n) < 0x80 && Cut(n) as int == n
  {
    SmallCutValue(n);
    SmallCutBound(n);
  }

  lemma SmallCutValue(n: nat)
    requires n < 32
    ensures Cut(n) as int == n
  {
  }

  lemma SmallCutBound(n: nat)
    requires n < 32
    ensures Cut(n) < 0x80
  {
    var v := n as bv32;
  }

  /** A reference becomes four bytes at most. */
  lemma ExpandIsShort(e: Entity, u: bool)
    ensures |Expand(e, u)| <= 4
  {
  }
}
