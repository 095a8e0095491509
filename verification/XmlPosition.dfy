/** Line ends and positions: the newline loop of LoadFile and TiXmlParsingData::Stamp. */
module XmlPosition {
  import opened Options
  import opened XmlText

  // ---- Newline normalisation ----

  function Normalise(s: string): string {
    if s == "" then ""
    else if s[0] == '\r' then "\n" + Normalise(if |s| > 1 && s[1] == '\n' then s[2..] else s[1..])
    else [s[0]] + Normalise(s[1..])
  }

  /** The loop of LoadFile, which appends whole chunks between carriage returns. */
  method LoadNormalised(buf: string) returns (data: string)
    ensures data == Normalise(UpToNul(buf))
  {
    data := "";
    var lastPos, p := 0, 0;
    assert buf[0..] == buf && data + buf[lastPos..p] == "";
    while p < |buf| && buf[p] != '\0'
      invariant 0 <= lastPos <= p <= |buf|
      invariant Normalise(UpToNul(buf)) == (data + buf[lastPos..p]) + Normalise(UpToNul(buf[p..]))
      decreases |buf| - p
    {
      TextStep(buf, p);
      TakeOver(data, buf, lastPos, p, Next(buf, p));
      if buf[p] == '\n' {
        data := data + buf[lastPos..p + 1];
        p := p + 1;
        lastPos := p;
      } else if buf[p] == '\r' {
        if p > lastPos { data := data + buf[lastPos..p]; }
        data := data + "\n";
        if p + 1 < |buf| && buf[p + 1] == '\n' { p := p + 2; } else { p := p + 1; }
        lastPos := p;
      } else {
        p := p + 1;
      }
    }
    if p != lastPos { data := data + buf[lastPos..p]; }
  }

  /** Where the loop goes from p. */
  function Next(buf: string, p: nat): nat
    requires p < |buf|
  {
    if buf[p] == '\r' && p + 1 < |buf| && buf[p + 1] == '\n' then p + 2 else p + 1
  }

  /** How the pending characters, the next one and the rest may be grouped. */
  lemma TakeOver(data: string, buf: string, lastPos: nat, p: nat, next: nat)
    requires lastPos <= p < |buf| && next <= |buf|
    ensures var rest := Normalise(UpToNul(buf[next..]));
      && (data + buf[lastPos..p]) + ([buf[p]] + rest) == (data + buf[lastPos..p + 1]) + rest
      && (data + buf[lastPos..p + 1]) + rest == ((data + buf[lastPos..p + 1]) + buf[next..next]) + rest
      && (data + buf[lastPos..p]) + ("\n" + rest) == (((data + buf[lastPos..p]) + "\n") + buf[next..next]) + rest
      && (p == lastPos ==> data + buf[lastPos..p] == data)
  {
    var rest := Normalise(UpToNul(buf[next..]));
    assert buf[lastPos..p + 1] == buf[lastPos..p] + [buf[p]];
    Regroup(data, buf[lastPos..p], [buf[p]]);
    Regroup(data + buf[lastPos..p], [buf[p]], rest);
    Regroup(data + buf[lastPos..p], "\n", rest);
    assert (data + buf[lastPos..p + 1]) + buf[next..next] == data + buf[lastPos..p + 1];
    assert ((data + buf[lastPos..p]) + "\n") + buf[next..next] == (data + buf[lastPos..p]) + "\n";
  }

  lemma Regroup(a: string, b: string, c: string)
    ensures a + (b + c) == (a + b) + c
  {
  }

  /** One character, or one line end, off the front. */
  lemma TextStep(buf: string, p: nat)
    requires p < |buf| && buf[p] != '\0'
    ensures var next := Next(buf, p);
            Normalise(UpToNul(buf[p..])) == [if buf[p] == '\r' then '\n' else buf[p]] + Normalise(UpToNul(buf[next..]))
  {
    assert buf[p..][1..] == buf[p + 1..];
    assert UpToNul(buf[p..]) == [buf[p]] + UpToNul(buf[p + 1..]);
    if p + 1 < |buf| {
      assert buf[p + 1..][1..] == buf[p + 2..];
      assert UpToNul(buf[p..])[1..] == UpToNul(buf[p + 1..]);
      assert buf[p + 1] != '\0' ==> UpToNul(buf[p + 1..]) == [buf[p + 1]] + UpToNul(buf[p + 2..]);
      assert buf[p + 1] != '\0' ==> UpToNul(buf[p..])[2..] == UpToNul(buf[p + 2..]);
    }
  }

  // Section 2.11 of XML 1.0, read as two translations one after the other.

  function PairsToLf(s: string): string {
    if |s| < 2 then s
    else if s[0] == '\r' && s[1] == '\n' then "\n" + PairsToLf(s[2..])
    else [s[0]] + PairsToLf(s[1..])
  }

  function CrToLf(s: string): string {
    seq(|s|, i requires 0 <= i < |s| => if s[i] == '\r' then '\n' else s[i])
  }

  lemma CrToLfCons(c: char, s: string)
    ensures CrToLf([c] + s) == [if c == '\r' then '\n' else c] + CrToLf(s)
  {
  }

  /** The loop's result is the translation of the standard. */
  lemma {:induction false} NormaliseIsSection211(s: string)
    ensures Normalise(s) == CrToLf(PairsToLf(s))
  {
    if |s| < 2 {
      assert s != "" ==> s[1..] == "" && Normalise(s[1..]) == "";
    } else if s[0] == '\r' && s[1] == '\n' {
      NormaliseIsSection211(s[2..]);
      CrToLfCons('\n', PairsToLf(s[2..]));
    } else {
      NormaliseIsSection211(s[1..]);
      CrToLfCons(s[0], PairsToLf(s[1..]));
    }
  }

  lemma {:induction false} NormaliseHasNoCr(s: string)
    ensures '\r' !in Normalise(s)
  {
    NormaliseIsSection211(s);
  }

  /** Nothing changes exactly when there is nothing to translate; so doing it twice is doing it once. */
  lemma {:induction false} NormaliseFixes(s: string)
    ensures Normalise(s) == s <==> '\r' !in s
    ensures Normalise(Normalise(s)) == Normalise(s)
  {
    NormaliseHasNoCr(s);
    if '\r' !in s { NormaliseKeeps(s); }
    NormaliseKeeps(Normalise(s));
  }

  lemma {:induction false} NormaliseKeeps(s: string)
    requires '\r' !in s
    ensures Normalise(s) == s
  {
    if s != "" {
      assert s[0] in s && s == [s[0]] + s[1..];
      NormaliseKeeps(s[1..]);
    }
  }

  // ---- Positions ----

  datatype Cursor = Cursor(row: int, col: int, stamp: nat)

  /** Division in C++ drops the fraction, also below zero. */
  function Quotient(a: int, b: int): int
    requires b > 0
  {
    if a >= 0 then a / b else -((-a) / b)
  }

  /** One turn of the loop in Stamp: a line break of one or two characters, a tab, a character, or in
      UTF-8 a mark of no width. None: at a byte 0xEF with less than two bytes behind it the loop does
      not move, and so never ends. */
  function Step(u: bool, s: string, c: Cursor, tab: int): (r: Option<Cursor>)
    requires c.stamp < |s| && tab > 0
    ensures r.Some? ==> c.stamp < r.value.stamp
  {
    var next := if c.stamp + 1 < |s| then s[c.stamp + 1] else '\0';
    match s[c.stamp]
    case '\r' => Some(Cursor(c.row + 1, 0, if next == '\n' then c.stamp + 2 else c.stamp + 1))
    case '\n' => Some(Cursor(c.row + 1, 0, if next == '\r' then c.stamp + 2 else c.stamp + 1))
    case '\t' => Some(Cursor(c.row, (Quotient(c.col, tab) + 1) * tab, c.stamp + 1))
    case lead =>
      if !u then Some(Cursor(c.row, c.col + 1, c.stamp + 1))
      else if lead as int != 0xEF then Some(Cursor(c.row, c.col + 1, c.stamp + SequenceLength(lead)))
      else if c.stamp + 2 >= |s| then None
      else Some(Cursor(c.row, if IsMark(s[c.stamp..]) then c.col else c.col + 1, c.stamp + 3))
  }

  function Advanced(u: bool, s: string, c: Cursor, now: nat, tab: int): (r: Option<Cursor>)
    requires now <= |s| && tab > 0
    ensures r.Some? ==> r.value.stamp >= c.stamp && r.value.stamp >= now
    decreases |s| - c.stamp
  {
    if c.stamp >= now then Some(c)
    else match Step(u, s, c, tab)
      case None => None
      case Some(next) => Advanced(u, s, next, now, tab)
  }

  /** A tab size below one switches position tracking off. Nothing follows a call that does not end. */
  function Stamped(u: bool, s: string, c: Option<Cursor>, now: nat, tab: int): Option<Cursor>
    requires now <= |s|
  {
    if tab < 1 || c.None? then c else Advanced(u, s, c.value, now, tab)
  }

  // ---- Where the loop does not end ----

  /** Where the loop goes from p, rows and columns aside. */
  function NextStamp(u: bool, s: string, p: nat): (next: nat)
    requires p < |s|
    ensures next > p
  {
    var next := if p + 1 < |s| then s[p + 1] else '\0';
    if (s[p] == '\r' && next == '\n') || (s[p] == '\n' && next == '\r') then p + 2
    else if u then p + SequenceLength(s[p])
    else p + 1
  }

  /** On its way from p the loop meets, before now, a byte 0xEF that is one of the last two. */
  predicate Sticks(u: bool, s: string, p: nat, now: nat)
    requires now <= |s|
    decreases |s| - p
  {
    p < now && ((u && s[p] as int == 0xEF && p + 2 >= |s|) || Sticks(u, s, NextStamp(u, s, p), now))
  }

  /** A call ends exactly if it does not. */
  lemma {:induction false} EndsUnlessSticks(u: bool, s: string, c: Cursor, now: nat, tab: int)
    requires now <= |s| && tab > 0
    ensures Advanced(u, s, c, now, tab).Some? <==> !Sticks(u, s, c.stamp, now)
    decreases |s| - c.stamp
  {
    if c.stamp < now {
      var next := Step(u, s, c, tab);
      if next.Some? {
        assert next.value.stamp == NextStamp(u, s, c.stamp);
        EndsUnlessSticks(u, s, next.value, now, tab);
      }
    }
  }

  /** So every call ends outside UTF-8, up to the last byte but one, and where none of the last two bytes is 0xEF. */
  lemma {:induction false} SticksNearTheEnd(u: bool, s: string, p: nat, now: nat)
    requires now <= |s|
    ensures Sticks(u, s, p, now) ==>
              u && now + 2 > |s| && exists i | 0 <= i < |s| && i + 2 >= |s| :: s[i] as int == 0xEF
    decreases |s| - p
  {
    if p < now && !(u && s[p] as int == 0xEF && p + 2 >= |s|) { SticksNearTheEnd(u, s, NextStamp(u, s, p), now); }
  }

  // ---- Parsing data ----

  /** A call of Stamp: the mode, and how much of the text is left behind the pointer. */
  datatype Mark = Mark(utf8: bool, left: nat)

  function Position(text: string, left: nat): (now: nat)
    ensures now <= |text|
  {
    if left <= |text| then |text| - left else 0
  }

  /** The cursor after some calls; None once one of them does not end. */
  function Track(text: string, c: Option<Cursor>, marks: seq<Mark>, tab: int): Option<Cursor>
    decreases |marks|
  {
    if marks == [] then c
    else
      var m := marks[0];
      Track(text, Stamped(m.utf8, text, c, Position(text, m.left), tab), marks[1..], tab)
  }

  lemma {:induction false} TrackJoin(text: string, c: Option<Cursor>, a: seq<Mark>, b: seq<Mark>, tab: int)
    ensures Track(text, c, a + b, tab) == Track(text, Track(text, c, a, tab), b, tab)
    decreases |a|
  {
    if a == [] {
      assert a + b == b;
    } else {
      assert (a + b)[1..] == a[1..] + b;
      TrackJoin(text, Stamped(a[0].utf8, text, c, Position(text, a[0].left), tab), a[1..], b, tab);
    }
  }

  lemma {:induction false} TrackNone(text: string, marks: seq<Mark>, tab: int)
    ensures Track(text, None, marks, tab) == None
    decreases |marks|
  {
    if marks != [] { TrackNone(text, marks[1..], tab); }
  }

  class ParsingData {
    const text: string
    var cursor: Cursor
    const tabsize: int

    constructor (text: string, tabsize: int, row: int, col: int)
      ensures cursor == Cursor(row, col, 0) && this.text == text && this.tabsize == tabsize
    {
      this.text, this.tabsize := text, tabsize;
      cursor := Cursor(row, col, 0);
    }

    /** What the calls since an earlier cursor have come to. */
    ghost predicate Moved(before: Cursor, marks: seq<Mark>, ends: bool)
      reads this
    {
      Track(text, Some(before), marks, tabsize) == if ends then Some(cursor) else None
    }

    /** Its cases for a character that is no tab and no line end. */
    method PassCharacter(u: bool, s: string, p: nat, col: int) returns (moves: bool, next: nat, nextCol: int)
      requires p < |s| && s[p] != '\r' && s[p] != '\n' && s[p] != '\t'
      ensures forall row: int, tab: int | tab > 0 ::
                Step(u, s, Cursor(row, col, p), tab) == if moves then Some(Cursor(row, nextCol, next)) else None
    {
      moves, next, nextCol := true, p + 1, col + 1;
      if u {
        if s[p] as int != 0xEF {
          next := p + SequenceLength(s[p]);
        } else if p + 2 < |s| {
          next := p + 3;
          if IsMark(s[p..]) { nextCol := col; }
        } else {
          moves := false;
        }
      }
    }

    /** false where the source would stay in the loop for ever. */
    method Stamp(u: bool, left: nat) returns (ends: bool)
      modifies this
      ensures Stamped(u, text, Some(old(cursor)), Position(text, left), tabsize) == if ends then Some(cursor) else None
      ensures Moved(old(cursor), [Mark(u, left)], ends)
    {
      if tabsize < 1 { return true; }
      var now := Position(text, left);
      var row, col, p := cursor.row, cursor.col, cursor.stamp;
      while p < now
        invariant Advanced(u, text, old(cursor), now, tabsize) == Advanced(u, text, Cursor(row, col, p), now, tabsize)
        decreases |text| - p
      {
        if text[p] == '\r' {
          row, col, p := row + 1, 0, p + 1;
          if p < |text| && text[p] == '\n' { p := p + 1; }
        } else if text[p] == '\n' {
          row, col, p := row + 1, 0, p + 1;
          if p < |text| && text[p] == '\r' { p := p + 1; }
        } else if text[p] == '\t' {
          p := p + 1;
          col := (Quotient(col, tabsize) + 1) * tabsize;
        } else {
          var moves;
          moves, p, col := PassCharacter(u, text, p, col);
          if !moves { return false; }
        }
      }
      cursor := Cursor(row, col, p);
      ends := true;
    }
  }

  function StampAll(u: bool, s: string, c: Option<Cursor>, nows: seq<nat>, tab: int): Option<Cursor>
    requires forall now <- nows :: now <= |s|
    decreases |nows|
  {
    if nows == [] then c
    else
      assert forall now <- nows[1..] :: now in nows;
      assert nows[0] in nows;
      StampAll(u, s, Stamped(u, s, c, nows[0], tab), nows[1..], tab)
  }

  function Furthest(nows: seq<nat>): nat {
    if nows == [] then 0
    else if nows[0] > Furthest(nows[1..]) then nows[0] else Furthest(nows[1..])
  }

  lemma {:induction false} AdvancedTwice(u: bool, s: string, c: Cursor, a: nat, b: nat, tab: int)
    requires a <= |s| && b <= |s| && tab > 0
    ensures Stamped(u, s, Advanced(u, s, c, a, tab), b, tab) == Advanced(u, s, c, if a > b then a else b, tab)
    decreases |s| - c.stamp
  {
    if c.stamp < a {
      var next := Step(u, s, c, tab);
      if next.Some? { AdvancedTwice(u, s, next.value, a, b, tab); }
    }
  }

  /** However many calls there were, and wherever they landed, even between the two characters of
      a line break or within a multi-byte character: the position is that of one call to the furthest
      point, and they all end exactly if that one does. */
  lemma {:induction false} PathIndependent(u: bool, s: string, c: Option<Cursor>, nows: seq<nat>, tab: int)
    requires forall now <- nows :: now <= |s|
    ensures Furthest(nows) <= |s|
    ensures StampAll(u, s, c, nows, tab) == Stamped(u, s, c, Furthest(nows), tab)
    decreases |nows|
  {
    if nows != [] {
      assert nows[0] in nows && forall now <- nows[1..] :: now in nows;
      PathIndependent(u, s, Stamped(u, s, c, nows[0], tab), nows[1..], tab);
      if tab >= 1 && c.Some? { AdvancedTwice(u, s, c.value, nows[0], Furthest(nows[1..]), tab); }
    }
  }

  // ---- Which sequences of calls end ----

  function Positions(text: string, marks: seq<Mark>): (nows: seq<nat>)
    ensures |nows| == |marks| && forall now <- nows :: now <= |text|
  {
    if marks == [] then [] else [Position(text, marks[0].left)] + Positions(text, marks[1..])
  }

  lemma {:induction false} TrackInOneMode(u: bool, text: string, c: Option<Cursor>, marks: seq<Mark>, tab: int)
    requires forall m <- marks :: m.utf8 == u
    ensures Track(text, c, marks, tab) == StampAll(u, text, c, Positions(text, marks), tab)
    decreases |marks|
  {
    if marks != [] {
      assert marks[0] in marks && forall m <- marks[1..] :: m in marks;
      var now := Position(text, marks[0].left);
      assert Positions(text, marks)[1..] == Positions(text, marks[1..]);
      TrackInOneMode(u, text, Stamped(u, text, c, now, tab), marks[1..], tab);
    }
  }

  /** Calls in one mode all end exactly if the way to the furthest of them does. */
  lemma OneModeEnds(u: bool, text: string, c: Cursor, marks: seq<Mark>, tab: int)
    requires tab > 0 && forall m <- marks :: m.utf8 == u
    ensures var nows := Positions(text, marks);
            && Furthest(nows) <= |text|
            && (Track(text, Some(c), marks, tab).Some? <==> !Sticks(u, text, c.stamp, Furthest(nows)))
  {
    var nows := Positions(text, marks);
    TrackInOneMode(u, text, Some(c), marks, tab);
    PathIndependent(u, text, Some(c), nows, tab);
    EndsUnlessSticks(u, text, c, Furthest(nows), tab);
  }

  /** Calls that are made in another mode first, and then in UTF-8: only the latter can fail to end. */
  lemma TwoModesEnd(text: string, c: Cursor, first: seq<Mark>, later: seq<Mark>, tab: int)
    requires tab > 0 && (forall m <- first :: !m.utf8) && (forall m <- later :: m.utf8)
    ensures var d := Track(text, Some(c), first, tab);
            && d.Some?
            && Furthest(Positions(text, later)) <= |text|
            && (Track(text, Some(c), first + later, tab).Some?
                <==> !Sticks(true, text, d.value.stamp, Furthest(Positions(text, later))))
  {
    OneModeEnds(false, text, c, first, tab);
    SticksNearTheEnd(false, text, c.stamp, Furthest(Positions(text, first)));
    var d := Track(text, Some(c), first, tab);
    TrackJoin(text, Some(c), first, later, tab);
    OneModeEnds(true, text, d.value, later, tab);
  }

  /** None of the last two bytes is 0xEF. */
  predicate NoLateLead(text: string) {
    forall i | 0 <= i < |text| && i + 2 >= |text| :: text[i] as int != 0xEF
  }

  /** Calls in front of at least two bytes end, and so do all calls if none of the last two is 0xEF. */
  lemma {:induction false} EarlyCallsEnd(text: string, c: Cursor, marks: seq<Mark>, tab: int)
    requires NoLateLead(text) || forall m <- marks :: m.utf8 ==> m.left >= 2
    ensures Track(text, Some(c), marks, tab).Some?
    decreases |marks|
  {
    if marks != [] {
      var m := marks[0];
      var now := Position(text, m.left);
      assert m in marks && forall n <- marks[1..] :: n in marks;
      if tab > 0 {
        EndsUnlessSticks(m.utf8, text, c, now, tab);
        SticksNearTheEnd(m.utf8, text, c.stamp, now);
      }
      EarlyCallsEnd(text, Stamped(m.utf8, text, Some(c), now, tab).value, marks[1..], tab);
    }
  }

  /** On whole characters every call ends. */
  lemma {:induction false} StampEnds(u: bool, s: string, c: Cursor, now: nat, tab: int)
    requires now <= |s| && tab > 0 && c.stamp <= |s| && WellEncoded(u, s[c.stamp..])
    ensures Advanced(u, s, c, now, tab).Some?
    decreases |s| - c.stamp
  {
    if c.stamp < now {
      var rest := s[c.stamp..];
      assert rest[0] == s[c.stamp];
      var next := Step(u, s, c, tab).value;
      CharactersBehind(u, rest, next.stamp - c.stamp);
      assert rest[next.stamp - c.stamp..] == s[next.stamp..];
      StampEnds(u, s, next, now, tab);
    }
  }

  /** One character or two of one byte off the front. */
  lemma CharactersBehind(u: bool, s: string, n: nat)
    requires s != "" && WellEncoded(u, s)
    requires n == FirstLength(u, s) || (n == 2 && |s| > 1 && s[0] as int < 0x80 && s[1] as int < 0x80)
    ensures n <= |s| && WellEncoded(u, s[n..])
  {
    if u && n != FirstLength(u, s) { assert s[1..][1..] == s[2..] && WellEncoded(u, s[1..]); }
  }

  // ---- What row and column count ----

  predicate IsLineEnd(c: char) {
    c == '\r' || c == '\n'
  }

  /** A line break is one line end, or two different ones. */
  function BreakLength(s: string): (n: nat)
    ensures n <= |s|
  {
    if s == "" || !IsLineEnd(s[0]) then 0
    else if |s| > 1 && IsLineEnd(s[1]) && s[1] != s[0] then 2
    else 1
  }

  /** The length of what a text starts with: a line break or a character. */
  function UnitLength(u: bool, s: string): (n: nat)
    requires s != "" && WellEncoded(u, s)
    ensures 1 <= n <= |s| && WellEncoded(u, s[n..])
  {
    if BreakLength(s) > 0 then
      CharactersBehind(u, s, BreakLength(s));
      BreakLength(s)
    else
      CharactersBehind(u, s, FirstLength(u, s));
      FirstLength(u, s)
  }

  function LineBreaks(u: bool, s: string): nat
    requires WellEncoded(u, s)
    decreases |s|
  {
    if s == "" then 0 else (if BreakLength(s) > 0 then 1 else 0) + LineBreaks(u, s[UnitLength(u, s)..])
  }

  /** The first tab stop behind a column, looked for from a tab stop on. */
  function TabStop(col: nat, tab: nat, stop: nat): nat
    requires tab > 0
    decreases if stop > col then 0 else col - stop + 1
  {
    if stop > col then stop else TabStop(col, tab, stop + tab)
  }

  /** Characters since the last line break, or since a starting column; a tab goes on to the next tab stop,
      and marks have no width. */
  function ColumnAfter(u: bool, s: string, col: nat, tab: nat): nat
    requires WellEncoded(u, s) && tab > 0
    decreases |s|
  {
    if s == "" then col else ColumnAfter(u, s[UnitLength(u, s)..], ColumnBehind(u, s, col, tab), tab)
  }

  function ColumnBehind(u: bool, s: string, col: nat, tab: nat): nat
    requires s != "" && tab > 0
  {
    if BreakLength(s) > 0 then 0 else if s[0] == '\t' then TabStop(col, tab, tab) else if u && IsMark(s) then col else col + 1
  }

  lemma QuotientIs(col: nat, tab: nat, m: nat)
    requires tab > 0 && m * tab <= col < m * tab + tab
    ensures Quotient(col, tab) == m
  {
    var q := col / tab;
    assert q * tab <= col < q * tab + tab;
    if q < m { Grows(q + 1, m, tab); }
    if m < q { Grows(m + 1, q, tab); }
  }

  lemma Grows(a: nat, b: nat, tab: nat)
    requires a <= b
    ensures a * tab <= b * tab && (a + 1) * tab == a * tab + tab
    ensures a > 0 ==> a * tab == (a - 1) * tab + tab
  {
    assert b * tab == a * tab + (b - a) * tab;
  }

  /** The arithmetic of the loop finds it. */
  lemma {:induction false} TabStopIs(col: nat, tab: nat, m: nat, stop: nat)
    requires tab > 0 && m * tab <= col && stop == m * tab + tab
    ensures TabStop(col, tab, stop) == (Quotient(col, tab) + 1) * tab
    decreases if stop > col then 0 else col - stop + 1
  {
    Grows(m, m + 1, tab);
    if stop > col { QuotientIs(col, tab, m); } else { TabStopIs(col, tab, m + 1, stop + tab); }
  }

  /** The text up to `now` does not end within a line break. */
  predicate BetweenUnits(s: string, start: nat, now: nat)
    requires start <= now <= |s|
  {
    start == now || now == |s| || !IsLineEnd(s[now - 1]) || !IsLineEnd(s[now])
  }

  lemma NextChar(s: string, p: nat, now: nat, passed: string)
    requires p < now <= |s| && passed == s[p..now] && BetweenUnits(s, p, now)
    ensures passed[0] == s[p]
    ensures BreakLength(passed) == if !IsLineEnd(s[p]) then 0
              else if p + 1 < |s| && IsLineEnd(s[p + 1]) && s[p + 1] != s[p] then 2 else 1
  {
    if now == p + 1 {
      assert |passed| == 1;
    } else {
      assert passed[1] == s[p + 1];
    }
  }

  lemma BreakOver(u: bool, s: string, c: Cursor, now: nat, tab: int, passed: string)
    requires tab > 0 && c.stamp < now <= |s| && passed == s[c.stamp..now] && BetweenUnits(s, c.stamp, now)
    requires IsLineEnd(s[c.stamp])
    ensures Step(u, s, c, tab) == Some(Cursor(c.row + 1, 0, c.stamp + BreakLength(passed)))
  {
    NextChar(s, c.stamp, now, passed);
  }

  /** One turn of the loop at a whole character. */
  lemma CharacterOver(u: bool, s: string, c: Cursor, now: nat, tab: int, passed: string)
    requires c.col >= 0 && tab > 0 && c.stamp < now <= |s| && passed == s[c.stamp..now] && WellEncoded(u, passed)
    requires !IsLineEnd(s[c.stamp])
    ensures Step(u, s, c, tab)
         == Some(Cursor(c.row, ColumnBehind(u, passed, c.col, tab), c.stamp + FirstLength(u, passed)))
  {
    TabStopIs(c.col, tab, 0, tab);
    assert passed[0] == s[c.stamp];
    if u && passed[0] as int == 0xEF {
      assert forall i | 0 <= i < 3 :: passed[i] == s[c.stamp..][i];
    }
  }

  /** One turn of the loop. */
  lemma UnitOver(u: bool, s: string, c: Cursor, now: nat, tab: int, passed: string)
    requires c.col >= 0 && tab > 0 && c.stamp < now <= |s| && passed == s[c.stamp..now] && WellEncoded(u, passed)
    requires BetweenUnits(s, c.stamp, now)
    ensures Step(u, s, c, tab)
         == Some(Cursor(c.row + if BreakLength(passed) > 0 then 1 else 0, ColumnBehind(u, passed, c.col, tab),
                        c.stamp + UnitLength(u, passed)))
  {
    NextChar(s, c.stamp, now, passed);
    if IsLineEnd(s[c.stamp]) { BreakOver(u, s, c, now, tab, passed); } else { CharacterOver(u, s, c, now, tab, passed); }
  }

  lemma AdvanceStep(u: bool, s: string, c: Cursor, next: Cursor, now: nat, tab: int)
    requires c.stamp < now <= |s| && tab > 0 && Step(u, s, c, tab) == Some(next)
    ensures Advanced(u, s, c, now, tab) == Advanced(u, s, next, now, tab)
  {
  }

  lemma CountsBehind(u: bool, passed: string, n: nat, rest: string, col: nat, tab: nat)
    requires passed != "" && WellEncoded(u, passed) && tab > 0 && n == UnitLength(u, passed) && rest == passed[n..]
    ensures LineBreaks(u, passed) == (if BreakLength(passed) > 0 then 1 else 0) + LineBreaks(u, rest)
    ensures ColumnAfter(u, passed, col, tab) == ColumnAfter(u, rest, ColumnBehind(u, passed, col, tab), tab)
  {
  }

  lemma UnitBehind(u: bool, s: string, start: nat, now: nat, passed: string)
    requires start < now <= |s| && passed == s[start..now] && WellEncoded(u, passed) && BetweenUnits(s, start, now)
    ensures var next := start + UnitLength(u, passed);
            next <= now && passed[UnitLength(u, passed)..] == s[next..now] && BetweenUnits(s, next, now)
  {
  }

  lemma AdvanceOn(u: bool, s: string, c: Cursor, now: nat, tab: int, passed: string) returns (next: Cursor)
    requires c.col >= 0 && tab > 0 && c.stamp < now <= |s| && passed == s[c.stamp..now] && WellEncoded(u, passed)
    requires BetweenUnits(s, c.stamp, now)
    ensures next == Cursor(c.row + if BreakLength(passed) > 0 then 1 else 0, ColumnBehind(u, passed, c.col, tab),
                           c.stamp + UnitLength(u, passed))
    ensures Advanced(u, s, c, now, tab) == Advanced(u, s, next, now, tab)
  {
    UnitOver(u, s, c, now, tab, passed);
    next := Cursor(c.row + if BreakLength(passed) > 0 then 1 else 0, ColumnBehind(u, passed, c.col, tab),
                   c.stamp + UnitLength(u, passed));
    AdvanceStep(u, s, c, next, now, tab);
  }

  /** Between characters and line breaks, rows count line breaks, and columns count characters, with the tabs
      in between. */
  lemma {:induction false} PositionCounts(u: bool, s: string, c: Cursor, now: nat, tab: int)
    requires c.col >= 0 && tab > 0 && c.stamp <= now <= |s| && WellEncoded(u, s[c.stamp..now])
    requires BetweenUnits(s, c.stamp, now)
    ensures var passed := s[c.stamp..now];
            Advanced(u, s, c, now, tab)
            == Some(Cursor(c.row + LineBreaks(u, passed), ColumnAfter(u, passed, c.col, tab), now))
    decreases |s| - c.stamp
  {
    if c.stamp < now {
      var passed := s[c.stamp..now];
      var n := UnitLength(u, passed);
      var next := AdvanceOn(u, s, c, now, tab, passed);
      UnitBehind(u, s, c.stamp, now, passed);
      CountsBehind(u, passed, n, s[c.stamp + n..now], c.col, tab);
      PositionCounts(u, s, next, now, tab);
    }
  }
}
