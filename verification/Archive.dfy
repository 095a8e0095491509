/** ArchiveByTimestampStrategy: renaming a log file, and making room among its numbered archives. */
module Archive {

  // ---- Names ----

  function Digit(d: nat): char
    requires d < 10
  {
    "0123456789"[d]
  }

  /** NumberFormatter: decimal, without leading zeros. */
  function Decimal(n: nat): string {
    if n < 10 then [Digit(n)] else Decimal(n / 10) + [Digit(n % 10)]
  }

  function ArchiveName(base: string, n: nat): string {
    base + "." + Decimal(n)
  }

  lemma {:induction false} DecimalIsInjective(m: nat, n: nat)
    requires Decimal(m) == Decimal(n)
    ensures m == n
  {
    var s, t := Decimal(m), Decimal(n);
    assert s[|s| - 1] == Digit(m % 10) && t[|t| - 1] == Digit(n % 10);
    DecimalLength(m);
    DecimalLength(n);
    if m >= 10 {
      assert s[..|s| - 1] == Decimal(m / 10) && t[..|t| - 1] == Decimal(n / 10);
      DecimalIsInjective(m / 10, n / 10);
    }
  }

  /** A digit string, read from its end. */
  function ReadDecimal(s: string): nat {
    if s == "" then 0
    else if '0' <= s[|s| - 1] <= '9' then ReadDecimal(s[..|s| - 1]) * 10 + (s[|s| - 1] as int - '0' as int)
    else 0
  }

  /** The numeral is made of digits, reads as the number, and begins with a zero for zero alone. */
  lemma {:induction false} DecimalReads(n: nat)
    ensures Decimal(n) != "" && (forall c <- Decimal(n) :: '0' <= c <= '9')
    ensures ReadDecimal(Decimal(n)) == n
    ensures Decimal(n)[0] == '0' <==> n == 0
  {
    var s := Decimal(n);
    if n < 10 {
      assert s[..0] == "";
    } else {
      DecimalReads(n / 10);
      assert s[..|s| - 1] == Decimal(n / 10) && s[0] == Decimal(n / 10)[0];
    }
  }

  lemma DecimalLength(n: nat)
    ensures n < 10 <==> |Decimal(n)| == 1
  {
    if n >= 10 { assert |Decimal(n / 10)| > 0; }
  }

  lemma NamesDiffer(base: string, m: nat, n: nat)
    ensures ArchiveName(base, m) != base
    ensures ArchiveName(base, m) == ArchiveName(base, n) ==> m == n
  {
    var from := |base| + 1;
    assert ArchiveName(base, m)[from..] == Decimal(m) && ArchiveName(base, n)[from..] == Decimal(n);
    if ArchiveName(base, m) == ArchiveName(base, n) { DecimalIsInjective(m, n); }
  }

  /** The file itself and its archives up to number n. */
  function Chain(base: string, n: nat): seq<string> {
    [base] + seq(n + 1, k requires 0 <= k => ArchiveName(base, k))
  }

  ghost predicate Distinct<T>(s: seq<T>) {
    forall i, j | 0 <= i < j < |s| :: s[i] != s[j]
  }

  lemma ChainIsDistinct(base: string, n: nat)
    ensures Distinct(Chain(base, n))
  {
    var c := Chain(base, n);
    forall i, j | 0 <= i < j < |c| ensures c[i] != c[j] {
      assert c[j] == ArchiveName(base, j - 1);
      if i == 0 { NamesDiffer(base, j - 1, 0); } else { NamesDiffer(base, j - 1, i - 1); }
    }
  }

  lemma {:induction false} DistinctFit<T>(s: seq<T>, all: set<T>)
    requires Distinct(s) && forall x | x in s :: x in all
    ensures |s| <= |all|
  {
    if s != [] {
      var last := s[|s| - 1];
      DistinctFit(s[..|s| - 1], all - {last});
    }
  }

  // ---- The shift ----

  /** All names but the last are taken, what each held is now under the next one, the first name is
      free, and no other file was touched. */
  ghost predicate Shifted<C(!new)>(before: map<string, C>, after: map<string, C>, names: seq<string>) {
    && names != []
    && names[|names| - 1] !in before && names[0] !in after
    && (forall k | 0 <= k < |names| - 1 :: Moved(before, after, names, k))
    && UnchangedExcept(before, after, names)
  }

  ghost predicate Moved<C(!new)>(before: map<string, C>, after: map<string, C>, names: seq<string>, k: nat)
    requires k < |names| - 1
  {
    names[k] in before && names[k + 1] in after && after[names[k + 1]] == before[names[k]]
  }

  ghost predicate UnchangedExcept<C(!new)>(before: map<string, C>, after: map<string, C>, names: seq<string>) {
    forall name: string ::
      name in names || (if name in before then name in after && after[name] == before[name] else name !in after)
  }

  /** There is one way to do it. */
  lemma ShiftIsDetermined<C(!new)>(before: map<string, C>, after: map<string, C>, other: map<string, C>,
      base: string, n: nat, m: nat)
    requires Shifted(before, after, Chain(base, n)) && Shifted(before, other, Chain(base, m))
    ensures n == m && after == other
  {
    FirstGap(before, after, base, n, n);
    FirstGap(before, after, base, n, m);
    FirstGap(before, other, base, m, n);
    FirstGap(before, other, base, m, m);
    SameShift(before, after, other, Chain(base, n));
  }

  lemma FirstGap<C(!new)>(before: map<string, C>, after: map<string, C>, base: string, n: nat, k: nat)
    requires Shifted(before, after, Chain(base, n))
    ensures k < n ==> ArchiveName(base, k) in before
    ensures k == n ==> ArchiveName(base, k) !in before
  {
    var names := Chain(base, n);
    if k < n { assert Moved(before, after, names, k + 1) && names[k + 1] == ArchiveName(base, k); }
    if k == n { assert names[k + 1] == ArchiveName(base, k); }
  }

  lemma SameShift<C(!new)>(before: map<string, C>, after: map<string, C>, other: map<string, C>, names: seq<string>)
    requires Shifted(before, after, names) && Shifted(before, other, names)
    ensures after == other
  {
    forall name: string
      ensures name in after <==> name in other
      ensures name in after && name in other ==> after[name] == other[name]
    {
      if name in names {
        var k :| 0 <= k < |names| && names[k] == name;
        if k > 0 { assert Moved(before, after, names, k - 1) && Moved(before, other, names, k - 1); }
      }
    }
    assert after.Keys == other.Keys;
  }

  /** As many files as before, with the same contents. */
  lemma NothingIsLost<C(!new)>(before: map<string, C>, after: map<string, C>, base: string, n: nat)
    requires Shifted(before, after, Chain(base, n))
    ensures after.Values == before.Values && |after| == |before|
  {
    var names := Chain(base, n);
    ChainIsDistinct(base, n);
    SameCount(before, after, names);
    KeepsContents(before, after, names);
    ForgesNothing(before, after, names);
  }

  lemma SameCount<C(!new)>(before: map<string, C>, after: map<string, C>, names: seq<string>)
    requires Shifted(before, after, names) && Distinct(names) && |names| > 1
    ensures |after| == |before|
  {
    var first, last := names[0], names[|names| - 1];
    forall name: string ensures name in after <==> name in before.Keys - {first} + {last} {
      if name in names {
        var k :| 0 <= k < |names| && names[k] == name;
        if k > 0 { assert Moved(before, after, names, k - 1); }
        if k < |names| - 1 { assert Moved(before, after, names, k); }
      }
    }
    assert Moved(before, after, names, 0) && Moved(before, after, names, |names| - 2);
    assert after.Keys == before.Keys - {first} + {last};
  }

  lemma KeepsContents<C(!new)>(before: map<string, C>, after: map<string, C>, names: seq<string>)
    requires Shifted(before, after, names)
    ensures before.Values <= after.Values
  {
    forall name | name in before ensures before[name] in after.Values {
      if name in names {
        var k :| 0 <= k < |names| && names[k] == name;
        assert Moved(before, after, names, k);
      } else {
        assert after[name] == before[name];
      }
    }
  }

  lemma ForgesNothing<C(!new)>(before: map<string, C>, after: map<string, C>, names: seq<string>)
    requires Shifted(before, after, names)
    ensures after.Values <= before.Values
  {
    forall name | name in after ensures after[name] in before.Values {
      if name in names {
        var k :| 0 <= k < |names| && names[k] == name;
        assert Moved(before, after, names, k - 1);
      } else {
        assert after[name] == before[name];
      }
    }
  }

  /** Halfway: the names behind position p are final, those before it are still to be moved, and the
      name at p, which the next rename is to take, is free. */
  ghost predicate ShiftedBehind<C(!new)>(before: map<string, C>, after: map<string, C>, names: seq<string>, p: nat) {
    && p < |names| && names[p] !in after
    && (forall k | 0 <= k < p :: names[k] in before && names[k] in after && after[names[k]] == before[names[k]])
    && (forall k | p <= k < |names| - 1 :: Moved(before, after, names, k))
    && UnchangedExcept(before, after, names)
  }

  lemma ShiftOne<C(!new)>(before: map<string, C>, now: map<string, C>, next: map<string, C>, names: seq<string>, p: nat)
    requires Distinct(names) && p > 0 && ShiftedBehind(before, now, names, p)
    requires next == now[names[p] := now[names[p - 1]]] - {names[p - 1]}
    ensures ShiftedBehind(before, next, names, p - 1)
  {
    assert names[p] in names && names[p - 1] in names;
    forall k | p - 1 <= k < |names| - 1 ensures Moved(before, next, names, k) {
      if k >= p { assert Moved(before, now, names, k); }
    }
  }

  // ---- The file system ----

  class FileSystem<C(!new)> {
    var files: map<string, C>

    constructor (files: map<string, C>)
      ensures this.files == files
    {
      this.files := files;
    }

    /** moveFile. Its requirement is what keeps a file from being replaced by another. */
    method MoveFile(oldPath: string, newPath: string)
      requires oldPath in files && newPath !in files
      modifies this
      ensures files == old(files)[newPath := old(files)[oldPath]] - {oldPath}
    {
      files := files[newPath := files[oldPath]] - {oldPath};
    }

    method ArchiveByNumber(basePath: string) returns (ghost first: nat)
      requires basePath in files
      modifies this
      ensures Shifted(old(files), files, Chain(basePath, first))
    {
      ghost var before := files;
      var n := FirstFree(basePath);
      first := n;
      ghost var names := Chain(basePath, first);
      ChainIsDistinct(basePath, first);
      while n >= 0
        invariant -1 <= n <= first
        invariant ShiftedBehind(before, files, names, n + 1)
        decreases n
      {
        var oldPath := basePath;
        if n > 0 { oldPath := oldPath + "." + Decimal(n - 1); }
        var newPath := basePath + "." + Decimal(n);
        assert oldPath == names[n] && newPath == names[n + 1];
        ghost var now := files;
        MoveFile(oldPath, newPath);
        ShiftOne(before, now, files, names, n + 1);
        n := n - 1;
      }
      assert names[0] == basePath;
    }

    /** The search at the head of archiveByNumber. */
    method FirstFree(basePath: string) returns (n: int)
      requires basePath in files
      ensures n >= 0 && ArchiveName(basePath, n) !in files
      ensures ShiftedBehind(files, files, Chain(basePath, n), n + 1)
    {
      n := 0;
      while basePath + "." + Decimal(n) in files
        invariant n >= 0
        invariant forall k | 0 <= k < n :: ArchiveName(basePath, k) in files
        decreases |files| - n
      {
        assert ArchiveName(basePath, n) in files;
        ChainIsDistinct(basePath, n);
        DistinctFit(Chain(basePath, n), files.Keys);
        n := n + 1;
      }
    }

    /** archive: the log goes under the name with the time, unless that name is taken. Then it is the
        older archive that gets a number, the name with the time is left free, and the log itself stays
        where it is and goes on growing. */
    method Archive(path: string, stamp: string, empty: C) returns (ghost first: nat)
      requires path in files
      modifies this
      ensures path + "." + stamp !in old(files) ==>
        files == old(files)[path + "." + stamp := old(files)[path]][path := empty]
      ensures path + "." + stamp in old(files) ==>
        Shifted(old(files), files, Chain(path + "." + stamp, first)) && path in files && files[path] == old(files)[path]
    {
      var archPath := path + "." + stamp;
      first := 0;
      if archPath in files {
        first := ArchiveByNumber(archPath);
        NotInChain(path, archPath, first);
      } else {
        MoveFile(path, archPath);
      }
      if path !in files { files := files[path := empty]; }
    }
  }

  lemma NotInChain(path: string, base: string, n: nat)
    requires |path| < |base|
    ensures path !in Chain(base, n)
  {
    forall k | 0 <= k <= n ensures |ArchiveName(base, k)| > |path| {}
  }
}
