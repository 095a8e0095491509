/** LinearHashTable and HashMap: a table that splits one bucket on every insertion and merges one
    on every removal, refining a map from keys to values. */
module LinearHash {
  import opened Options
  import opened Sequences

  /** HashMapEntry: two entries are equal when their keys are. */
  datatype Entry<K, V> = Entry(first: K, second: V)

  // ---- Addresses ----

  /** bucketAddressForHash. */
  function Address(h: nat, front: nat, split: nat): (a: nat)
    requires front > 0 && split <= front
    ensures a < front + split
  {
    DoubleMod(h, front);
    if h % front >= split then h % front else h % (2 * front)
  }

  lemma DoubleMod(h: nat, f: nat)
    requires f > 0
    ensures h % f < f
    ensures h % (2 * f) == h % f || h % (2 * f) == h % f + f
  {
    var q, r := Division(h, 2 * f);
    Halves(f, q);
    if r < f { ModUnique(h, f, 2 * q, r); } else { ModUnique(h, f, 2 * q + 1, r - f); }
  }

  lemma Division(h: nat, m: nat) returns (q: nat, r: nat)
    requires m > 0
    ensures h == m * q + r && r == h % m < m
  {
    q, r := h / m, h % m;
  }

  lemma Halves(f: nat, q: nat)
    ensures (2 * f) * q == f * (2 * q)
    ensures f * (2 * q + 1) == f * (2 * q) + f
  {
  }

  lemma ModUnique(h: nat, f: nat, q: nat, r: nat)
    requires f > 0 && r < f && h == f * q + r
    ensures h % f == r
  {
    var q', r' := h / f, h % f;
    assert f * q' + r' == f * q + r;
    if q' > q { MulGap(f, q', q); } else if q > q' { MulGap(f, q, q'); }
  }

  lemma MulGap(f: nat, a: nat, b: nat)
    requires a > b
    ensures f * a >= f * b + f
  {
    var d := a - b;
    assert f * (b + d) == f * b + f * d;
    assert f * d == f + f * (d - 1);
  }

  /** A table whose buckets were all split once is a table of twice the front. */
  lemma FullSplitIsDoubled(h: nat, front: nat)
    requires front > 0
    ensures Address(h, front, front) == Address(h, 2 * front, 0)
  {
  }

  /** Moving the split pointer by one moves only hashes of the bucket it points at, and only to
      the new bucket. */
  lemma SplitMoves(h: nat, front: nat, split: nat)
    requires split < front
    ensures h % front != split ==> Address(h, front, split + 1) == Address(h, front, split) != split
    ensures h % front == split ==>
              Address(h, front, split) == split && Address(h, front, split + 1) in {split, front + split}
    ensures Address(h, front, split + 1) == front + split ==> Address(h, front, split) == split
  {
    DoubleMod(h, front);
  }

  predicate PowerOfTwo(n: nat) {
    n == 1 || (n > 1 && n % 2 == 0 && PowerOfTwo(n / 2))
  }

  lemma DoubledPower(n: nat)
    requires PowerOfTwo(n)
    ensures PowerOfTwo(2 * n)
  {
    assert 2 * n / 2 == n;
  }

  lemma {:induction false} PowerGap(a: nat, b: nat)
    requires PowerOfTwo(a) && PowerOfTwo(b) && a < b
    ensures 2 * a <= b
  {
    if a > 1 { PowerGap(a / 2, b / 2); }
  }

  /** Where a hash goes depends on the number of buckets alone, not on the insertions and removals
      that led to it. */
  lemma AddressIsHistoryIndependent(h: nat, front: nat, split: nat, front': nat, split': nat)
    requires PowerOfTwo(front) && split <= front && PowerOfTwo(front') && split' <= front'
    requires front + split == front' + split'
    ensures Address(h, front, split) == Address(h, front', split')
  {
    if front < front' {
      PowerGap(front, front');
      FullSplitIsDoubled(h, front);
    } else if front' < front {
      PowerGap(front', front);
      FullSplitIsDoubled(h, front');
    }
  }

  // ---- Buckets ----

  ghost function KeySet<K, V>(s: seq<Entry<K, V>>): set<K> {
    set e | e in s :: e.first
  }

  ghost predicate UniqueKeys<K, V>(s: seq<Entry<K, V>>) {
    forall i, j | 0 <= i < j < |s| :: s[i].first != s[j].first
  }

  ghost predicate Stored<K, V>(s: seq<Entry<K, V>>, m: map<K, V>) {
    forall e <- s :: e.first in m && m[e.first] == e.second
  }

  /** The buckets, together with entries taken out of them for a moment, hold exactly the map m:
      each key once, in the bucket its hash addresses. */
  ghost predicate Holds<K, V>(buckets: seq<seq<Entry<K, V>>>, pending: seq<Entry<K, V>>,
                              hash: K -> nat, front: nat, split: nat, m: map<K, V>)
  {
    && front > 0 && split <= front && |buckets| == front + split
    && (forall b | 0 <= b < |buckets| :: UniqueKeys(buckets[b]) && Stored(buckets[b], m))
    && (forall b | 0 <= b < |buckets| :: forall e <- buckets[b] ::
          Address(hash(e.first), front, split) == b && e.first !in KeySet(pending))
    && UniqueKeys(pending) && Stored(pending, m)
    && (forall k <- m :: k in KeySet(pending) || k in KeySet(buckets[Address(hash(k), front, split)]))
  }

  lemma PushKeeps<K, V>(buckets: seq<seq<Entry<K, V>>>, pending: seq<Entry<K, V>>,
                        hash: K -> nat, front: nat, split: nat, m: map<K, V>)
    requires pending != [] && Holds(buckets, pending, hash, front, split, m)
    ensures var e := pending[0];
            var a := Address(hash(e.first), front, split);
            a < |buckets| && Holds(buckets[a := buckets[a] + [e]], pending[1..], hash, front, split, m)
  {
  }

  /** Entries may be looked up by key in a bucket: std::find with the entries' equality. */
  function EntryOf<K(==), V>(s: seq<Entry<K, V>>, k: K): (i: nat)
    ensures i <= |s| && (i < |s| ==> s[i].first == k)
    ensures forall j | 0 <= j < i :: s[j].first != k
  {
    var keys := seq(|s|, i requires 0 <= i < |s| => s[i].first);
    assert forall j | 0 <= j < |s| :: s[j].first == keys[j];
    IndexOf(keys, k)
  }

  lemma FoundIsStored<K, V>(buckets: seq<seq<Entry<K, V>>>, hash: K -> nat, front: nat, split: nat, m: map<K, V>, k: K)
    requires Holds(buckets, [], hash, front, split, m)
    ensures var b := buckets[Address(hash(k), front, split)];
            (EntryOf(b, k) < |b| <==> k in m) && (k in m ==> b[EntryOf(b, k)].second == m[k])
  {
    var b := buckets[Address(hash(k), front, split)];
    var i := EntryOf(b, k);
    if i < |b| { assert b[i] in b; }
  }

  /** Taking the bucket at the split pointer out and adding an empty one, before its entries go
      back in under the next split pointer. */
  lemma SplitOpens<K, V>(buckets: seq<seq<Entry<K, V>>>, cleared: seq<seq<Entry<K, V>>>,
                         hash: K -> nat, front: nat, split: nat, m: map<K, V>)
    requires split < front && Holds(buckets, [], hash, front, split, m)
    requires cleared == (buckets + [[]])[split := []]
    ensures Holds(cleared, buckets[split], hash, front, split + 1, m)
  {
    forall b | 0 <= b < |cleared|
      ensures UniqueKeys(cleared[b]) && Stored(cleared[b], m)
      ensures forall e <- cleared[b] ::
                Address(hash(e.first), front, split + 1) == b && e.first !in KeySet(buckets[split])
    {
      if b != split && b < |buckets| {
        forall e <- cleared[b]
          ensures Address(hash(e.first), front, split + 1) == b && e.first !in KeySet(buckets[split])
        {
          assert e in buckets[b];
          SplitMoves(hash(e.first), front, split);
        }
      }
    }
    forall k <- m ensures k in KeySet(buckets[split]) || k in KeySet(cleared[Address(hash(k), front, split + 1)]) {
      SplitMoves(hash(k), front, split);
    }
  }

  /** Taking the last bucket out, before its entries go back in under the previous split pointer. */
  lemma MergeOpens<K, V>(buckets: seq<seq<Entry<K, V>>>, rest: seq<seq<Entry<K, V>>>, last: seq<Entry<K, V>>,
                         hash: K -> nat, front: nat, split: nat, m: map<K, V>)
    requires 0 < split && Holds(buckets, [], hash, front, split, m) && buckets == rest + [last]
    ensures Holds(rest, last, hash, front, split - 1, m)
  {
    var split' := split - 1;
    assert last == buckets[front + split'];
    forall b | 0 <= b < |rest|
      ensures UniqueKeys(rest[b]) && Stored(rest[b], m)
      ensures forall e <- rest[b] :: Address(hash(e.first), front, split') == b && e.first !in KeySet(last)
    {
      assert rest[b] == buckets[b];
      forall e <- rest[b] ensures Address(hash(e.first), front, split') == b && e.first !in KeySet(last) {
        SplitMoves(hash(e.first), front, split');
      }
    }
    forall k <- m ensures k in KeySet(last) || k in KeySet(rest[Address(hash(k), front, split')]) {
      SplitMoves(hash(k), front, split');
    }
  }

  lemma DoubleFront<K, V>(buckets: seq<seq<Entry<K, V>>>, hash: K -> nat, front: nat, m: map<K, V>)
    requires front > 0
    ensures Holds(buckets, [], hash, front, front, m) <==> Holds(buckets, [], hash, 2 * front, 0, m)
  {
    assert forall k: K :: Address(hash(k), front, front) == Address(hash(k), 2 * front, 0) by {
      forall k: K ensures Address(hash(k), front, front) == Address(hash(k), 2 * front, 0) {
        FullSplitIsDoubled(hash(k), front);
      }
    }
  }

  lemma AppendKeeps<K, V>(buckets: seq<seq<Entry<K, V>>>, hash: K -> nat, front: nat, split: nat, m: map<K, V>,
                          e: Entry<K, V>)
    requires Holds(buckets, [], hash, front, split, m) && e.first !in m
    ensures var a := Address(hash(e.first), front, split);
            Holds(buckets[a := buckets[a] + [e]], [], hash, front, split, m[e.first := e.second])
  {
    var a, m' := Address(hash(e.first), front, split), m[e.first := e.second];
    var added := buckets[a := buckets[a] + [e]];
    assert forall b | 0 <= b < |buckets| :: forall x <- buckets[b] :: x.first in m && x.first != e.first;
    forall k <- m' ensures k in KeySet(added[Address(hash(k), front, split)]) {
      if k == e.first { assert e in added[a]; }
    }
  }

  lemma RemoveKeeps<K, V>(buckets: seq<seq<Entry<K, V>>>, hash: K -> nat, front: nat, split: nat, m: map<K, V>,
                          b: nat, i: nat)
    requires Holds(buckets, [], hash, front, split, m) && b < |buckets| && i < |buckets[b]|
    ensures buckets[b][i].first in m
    ensures var left := buckets[b := buckets[b][..i] + buckets[b][i + 1..]];
            Holds(left, [], hash, front, split, m - {buckets[b][i].first})
  {
    var bucket, key := buckets[b], buckets[b][i].first;
    var rest := bucket[..i] + bucket[i + 1..];
    BucketWithout(bucket, i);
    assert Stored(rest, m - {key});
    assert forall c | 0 <= c < |buckets| && c != b :: forall e <- buckets[c] :: e.first != key;
  }

  lemma AssignKeeps<K, V>(buckets: seq<seq<Entry<K, V>>>, hash: K -> nat, front: nat, split: nat, m: map<K, V>,
                          b: nat, i: nat, value: V)
    requires Holds(buckets, [], hash, front, split, m) && b < |buckets| && i < |buckets[b]|
    ensures var e := buckets[b][i];
            e.first in m
            && Holds(buckets[b := buckets[b][i := Entry(e.first, value)]], [], hash, front, split, m[e.first := value])
  {
    var bucket, k := buckets[b], buckets[b][i].first;
    var after := bucket[i := Entry(k, value)];
    assert bucket[i] in bucket;
    forall e <- after ensures e == Entry(k, value) || (e in bucket && e.first != k) {
      var j :| 0 <= j < |after| && after[j] == e;
    }
    forall e <- bucket ensures e.first in KeySet(after) {
      var j :| 0 <= j < |bucket| && bucket[j] == e;
      assert after[j] in after && after[j].first == e.first;
    }
    var changed, n := buckets[b := after], m[k := value];
    forall c | 0 <= c < |changed| && c != b ensures Stored(changed[c], n) {
      forall e <- buckets[c] ensures e.first != k { assert Address(hash(e.first), front, split) == c; }
    }
  }

  lemma BucketWithout<K, V>(bucket: seq<Entry<K, V>>, i: nat)
    requires UniqueKeys(bucket) && i < |bucket|
    ensures var rest := bucket[..i] + bucket[i + 1..];
            && UniqueKeys(rest) && bucket[i] in bucket
            && (forall e <- rest :: e in bucket && e.first != bucket[i].first)
            && (forall e <- bucket | e.first != bucket[i].first :: e in rest)
  {
    var rest := bucket[..i] + bucket[i + 1..];
    forall e <- rest ensures e in bucket && e.first != bucket[i].first {
      var j :| 0 <= j < |rest| && rest[j] == e;
      assert e == bucket[if j < i then j else j + 1];
    }
    forall e <- bucket | e.first != bucket[i].first ensures e in rest {
      var j :| 0 <= j < |bucket| && bucket[j] == e;
      assert rest[if j < i then j else j - 1] == e;
    }
  }

  // ---- Iteration order ----

  function Flat<K, V>(buckets: seq<seq<Entry<K, V>>>): seq<Entry<K, V>> {
    if buckets == [] then [] else buckets[0] + Flat(buckets[1..])
  }

  /** Every entry of the buckets from i on has an address from i on, and comes up once. */
  lemma {:induction false} FlatFrom<K, V>(buckets: seq<seq<Entry<K, V>>>, hash: K -> nat, front: nat, split: nat,
                                          m: map<K, V>, i: nat)
    requires Holds(buckets, [], hash, front, split, m) && i <= |buckets|
    ensures var s := Flat(buckets[i..]);
            && UniqueKeys(s) && Stored(s, m)
            && (forall e <- s :: Address(hash(e.first), front, split) >= i)
            && (forall k <- m | Address(hash(k), front, split) >= i :: k in KeySet(s))
    decreases |buckets| - i
  {
    if i < |buckets| {
      FlatFrom(buckets, hash, front, split, m, i + 1);
      assert buckets[i..][0] == buckets[i] && buckets[i..][1..] == buckets[i + 1..];
      JoinUnique(buckets[i], Flat(buckets[i + 1..]), e => Address(hash(e), front, split) == i);
      assert forall k <- m | Address(hash(k), front, split) == i :: k in KeySet(buckets[i]);
    }
  }

  lemma JoinUnique<K, V>(a: seq<Entry<K, V>>, b: seq<Entry<K, V>>, left: K -> bool)
    requires UniqueKeys(a) && UniqueKeys(b)
    requires (forall e <- a :: left(e.first)) && (forall e <- b :: !left(e.first))
    ensures UniqueKeys(a + b)
    ensures KeySet(a + b) == KeySet(a) + KeySet(b)
  {
    forall i, j | 0 <= i < j < |a + b| ensures (a + b)[i].first != (a + b)[j].first {
      if i < |a| && j >= |a| {
        assert (a + b)[i] in a && (a + b)[j] in b;
      }
    }
    assert forall e <- a :: e in a + b;
    assert forall e <- b :: e in a + b;
  }

  lemma {:induction false} CountKeys<K, V>(s: seq<Entry<K, V>>)
    requires UniqueKeys(s)
    ensures |KeySet(s)| == |s|
  {
    if s == [] {
      assert KeySet(s) == {};
    } else {
      CountKeys(s[1..]);
      assert s == [s[0]] + s[1..];
      assert KeySet(s) == {s[0].first} + KeySet(s[1..]);
      assert s[0].first !in KeySet(s[1..]) by {
        forall e <- s[1..] ensures e.first != s[0].first {
          var j :| 0 <= j < |s[1..]| && s[1..][j] == e;
          assert s[j + 1] == e;
        }
      }
    }
  }

  /** Walking through all buckets meets every entry of the map exactly once. */
  lemma FlatIsContents<K, V>(buckets: seq<seq<Entry<K, V>>>, hash: K -> nat, front: nat, split: nat, m: map<K, V>)
    requires Holds(buckets, [], hash, front, split, m)
    ensures UniqueKeys(Flat(buckets)) && Stored(Flat(buckets), m)
    ensures KeySet(Flat(buckets)) == m.Keys && |Flat(buckets)| == |m|
  {
    assert buckets[0..] == buckets;
    FlatFrom(buckets, hash, front, split, m, 0);
    CountKeys(Flat(buckets));
    assert |m| == |m.Keys|;
  }

  lemma OneLess<K, V>(m: map<K, V>, k: K)
    requires k in m
    ensures |m - {k}| == |m| - 1
  {
    assert |m - {k}| == |(m - {k}).Keys| && |m| == |m.Keys| && (m - {k}).Keys == m.Keys - {k};
  }

  /** An iterator: a bucket, and a place in it.  The end iterator is at the bucket past the last. */
  datatype Iterator = Iterator(vec: nat, buck: nat)

  class LinearHashTable<K(==), V(==)> {
    const hash: K -> nat
    var buckets: seq<seq<Entry<K, V>>>
    var split: nat
    var front: nat
    var size: nat
    ghost var contents: map<K, V>

    ghost predicate Valid()
      reads this
    {
      && Holds(buckets, [], hash, front, split, contents)
      && PowerOfTwo(front)
      && front + split == size + 1
      && size == |contents|
    }

    constructor (hash: K -> nat)
      ensures Valid() && contents == map[] && this.hash == hash
    {
      this.hash := hash;
      buckets, split, front, size := [[]], 0, 1, 0;
      contents := map[];
    }

    ghost predicate At(it: Iterator, k: K)
      reads this
    {
      it.vec < |buckets| && it.buck < |buckets[it.vec]| && buckets[it.vec][it.buck].first == k
    }

    function End(): Iterator
      reads this
    {
      Iterator(|buckets|, 0)
    }

    method Find(key: K) returns (it: Iterator)
      requires Valid()
      ensures key in contents ==> At(it, key) && buckets[it.vec][it.buck].second == contents[key]
      ensures key !in contents ==> it == End()
    {
      FoundIsStored(buckets, hash, front, split, contents, key);
      var addr := Address(hash(key), front, split);
      var i := EntryOf(buckets[addr], key);
      if i != |buckets[addr]| { it := Iterator(addr, i); } else { it := End(); }
    }

    method Count(key: K) returns (n: nat)
      requires Valid()
      ensures n == if key in contents then 1 else 0
    {
      var it := Find(key);
      n := if it != End() then 1 else 0;
    }

    /** Puts the entries of a bucket that was taken out back where they now belong. */
    method Redistribute(tmp: seq<Entry<K, V>>)
      requires Holds(buckets, tmp, hash, front, split, contents)
      modifies this`buckets
      ensures Holds(buckets, [], hash, front, split, contents)
    {
      var it := 0;
      assert tmp[0..] == tmp;
      while it < |tmp|
        invariant it <= |tmp|
        invariant Holds(buckets, tmp[it..], hash, front, split, contents)
      {
        PushKeeps(buckets, tmp[it..], hash, front, split, contents);
        assert tmp[it..][1..] == tmp[it + 1..];
        var addr := Address(hash(tmp[it].first), front, split);
        buckets := buckets[addr := buckets[addr] + [tmp[it]]];
        it := it + 1;
      }
    }

    /** Starts the next round once every bucket was split. */
    method DoubleTheFront()
      requires Holds(buckets, [], hash, front, split, contents) && PowerOfTwo(front) && split == front
      modifies this`split, this`front
      ensures Holds(buckets, [], hash, front, split, contents) && PowerOfTwo(front) && split < front
    {
      DoubleFront(buckets, hash, front, contents);
      DoubledPower(front);
      split := 0;
      front := front * 2;
    }

    method SplitNext()
      requires split < front && Holds(buckets, [], hash, front, split, contents)
      modifies this`buckets, this`split
      ensures Holds(buckets, [], hash, front, split, contents)
      ensures |buckets| == old(|buckets|) + 1
    {
      var tmp, cleared := buckets[split], (buckets + [[]])[split := []];
      SplitOpens(buckets, cleared, hash, front, split, contents);
      buckets := cleared;
      split := split + 1;
      Redistribute(tmp);
    }

    /** Adds a bucket and spreads one over two. */
    method Split()
      requires Holds(buckets, [], hash, front, split, contents) && PowerOfTwo(front)
      modifies this`buckets, this`split, this`front
      ensures Holds(buckets, [], hash, front, split, contents) && PowerOfTwo(front)
      ensures |buckets| == old(|buckets|) + 1
    {
      if split == front {
        DoubleTheFront();
      }
      SplitNext();
    }

    /** Steps back into the previous round, in which every bucket was split. */
    method HalfFront()
      requires Holds(buckets, [], hash, front, 0, contents) && PowerOfTwo(front) && |buckets| > 1
      modifies this`split, this`front
      ensures Holds(buckets, [], hash, front, split, contents) && PowerOfTwo(front) && split == front
    {
      assert front > 1 && front == 2 * (front / 2);
      front := front / 2;
      DoubleFront(buckets, hash, front, contents);
      split := front;
    }

    method DropLast()
      requires split > 0 && Holds(buckets, [], hash, front, split, contents)
      modifies this`buckets, this`split
      ensures Holds(buckets, [], hash, front, split, contents)
      ensures |buckets| == old(|buckets|) - 1
    {
      var n := |buckets| - 1;
      var rest, last := buckets[..n], buckets[n];
      MergeOpens(buckets, rest, last, hash, front, split, contents);
      split := split - 1;
      buckets := rest;
      Redistribute(last);
    }

    /** Takes the last bucket away. */
    method Merge()
      requires Holds(buckets, [], hash, front, split, contents) && PowerOfTwo(front) && |buckets| > 1
      modifies this`buckets, this`split, this`front
      ensures Holds(buckets, [], hash, front, split, contents) && PowerOfTwo(front)
      ensures |buckets| == old(|buckets|) - 1
    {
      if split == 0 {
        HalfFront();
      }
      DropLast();
    }

    method Insert(value: Entry<K, V>) returns (it: Iterator, inserted: bool)
      requires Valid()
      modifies this
      ensures Valid() && At(it, value.first)
      ensures inserted <==> value.first !in old(contents)
      ensures contents == if value.first in old(contents) then old(contents)
                          else old(contents)[value.first := value.second]
      ensures buckets[it.vec][it.buck].second == contents[value.first]
    {
      var h := hash(value.first);
      var addr := Address(h, front, split);
      FoundIsStored(buckets, hash, front, split, contents, value.first);
      var i := EntryOf(buckets[addr], value.first);
      if i == |buckets[addr]| {
        Split();
        addr := Address(h, front, split);
        AppendKeeps(buckets, hash, front, split, contents, value);
        it := Iterator(addr, |buckets[addr]|);
        buckets := buckets[addr := buckets[addr] + [value]];
        contents := contents[value.first := value.second];
        size := size + 1;
        inserted := true;
      } else {
        it, inserted := Iterator(addr, i), false;
      }
    }

    /** An assignment through a reference into the table. */
    method Assign(it: Iterator, ghost key: K, value: V)
      requires Valid() && At(it, key)
      modifies this`buckets, this`contents
      ensures Valid() && At(it, key) && contents == old(contents)[key := value]
    {
      var bucket := buckets[it.vec];
      AssignKeeps(buckets, hash, front, split, contents, it.vec, it.buck, value);
      contents := contents[key := value];
      buckets := buckets[it.vec := bucket[it.buck := Entry(bucket[it.buck].first, value)]];
    }

    method RemoveEntry(vec: nat, buck: nat)
      requires Holds(buckets, [], hash, front, split, contents)
      requires vec < |buckets| && buck < |buckets[vec]|
      modifies this`buckets, this`contents
      ensures Holds(buckets, [], hash, front, split, contents)
      ensures |buckets| == old(|buckets|)
      ensures contents == old(contents) - {old(buckets)[vec][buck].first} && |contents| == old(|contents|) - 1
    {
      var bucket := buckets[vec];
      RemoveKeeps(buckets, hash, front, split, contents, vec, buck);
      OneLess(contents, bucket[buck].first);
      contents := contents - {bucket[buck].first};
      buckets := buckets[vec := bucket[..buck] + bucket[buck + 1..]];
    }

    method EraseAt(it: Iterator)
      requires Valid() && (it == End() || (it.vec < |buckets| && it.buck < |buckets[it.vec]|))
      modifies this
      ensures Valid()
      ensures contents == if it == old(End()) then old(contents)
                          else old(contents) - {old(buckets)[it.vec][it.buck].first}
    {
      if it != End() {
        RemoveEntry(it.vec, it.buck);
        size := size - 1;
        Merge();
      }
    }

    method Erase(key: K)
      requires Valid()
      modifies this
      ensures Valid() && contents == old(contents) - {key}
    {
      var it := Find(key);
      EraseAt(it);
      assert key !in old(contents) ==> old(contents) - {key} == old(contents);
    }

    method Clear()
      requires Valid()
      modifies this
      ensures Valid() && contents == map[]
    {
      buckets, split, front, size := [[]], 0, 1, 0;
      contents := map[];
    }

    // Iteration.

    ghost predicate Places(it: Iterator)
      reads this
    {
      it == End() || (it.vec < |buckets| && it.buck < |buckets[it.vec]|)
    }

    /** What an iterator still has before it. */
    ghost function Remaining(it: Iterator): seq<Entry<K, V>>
      requires Places(it)
      reads this
    {
      if it.vec == |buckets| then [] else buckets[it.vec][it.buck..] + Flat(buckets[it.vec + 1..])
    }

    /** The loop shared by begin and ++: from the start of a bucket on to one that is not empty. */
    method SkipEmpty(from: nat) returns (it: Iterator)
      requires from <= |buckets|
      ensures Places(it) && Remaining(it) == Flat(buckets[from..])
    {
      var vec := from;
      while vec != |buckets| && buckets[vec] == []
        invariant from <= vec <= |buckets| && Flat(buckets[from..]) == Flat(buckets[vec..])
        decreases |buckets| - vec
      {
        assert buckets[vec..][1..] == buckets[vec + 1..];
        vec := vec + 1;
      }
      it := Iterator(vec, 0);
      if vec < |buckets| {
        assert buckets[vec..][0] == buckets[vec] && buckets[vec..][1..] == buckets[vec + 1..];
      }
    }

    method Begin() returns (it: Iterator)
      ensures Places(it) && Remaining(it) == Flat(buckets)
    {
      it := SkipEmpty(0);
      assert buckets[0..] == buckets;
    }

    method Next(it: Iterator) returns (next: Iterator)
      requires Places(it) && it != End()
      ensures Places(next) && Remaining(next) == Remaining(it)[1..]
    {
      if it.buck + 1 < |buckets[it.vec]| {
        next := Iterator(it.vec, it.buck + 1);
      } else {
        next := SkipEmpty(it.vec + 1);
        assert buckets[it.vec][it.buck..] == [buckets[it.vec][it.buck]];
      }
    }

    /** A walk from begin() to end(). */
    method Walk() returns (visited: seq<Entry<K, V>>)
      ensures visited == Flat(buckets)
    {
      visited := [];
      var it := Begin();
      while it != End()
        invariant Places(it) && visited + Remaining(it) == Flat(buckets)
        decreases |Remaining(it)|
      {
        ghost var before, rest := visited, Remaining(it);
        assert rest[0] == buckets[it.vec][it.buck] && before + rest == (before + [rest[0]]) + rest[1..];
        visited := visited + [buckets[it.vec][it.buck]];
        it := Next(it);
      }
    }

    /** It meets each entry of the table, and nothing twice. */
    method Entries() returns (visited: seq<Entry<K, V>>)
      requires Valid()
      ensures UniqueKeys(visited) && |visited| == size
      ensures Stored(visited, contents) && KeySet(visited) == contents.Keys
    {
      visited := Walk();
      FlatIsContents(buckets, hash, front, split, contents);
    }
  }

  /** What a sequence of operations makes of an empty map. */
  datatype TableOp<K, V> = Insert(key: K, value: V) | Erase(key: K) | Clear

  function RunMap<K(==), V>(ops: seq<TableOp<K, V>>): map<K, V> {
    if ops == [] then map[]
    else
      var m := RunMap(ops[..|ops| - 1]);
      match ops[|ops| - 1]
      case Insert(key, value) => if key in m then m else m[key := value]
      case Erase(key) => m - {key}
      case Clear => map[]
  }

  /** However often buckets are split and merged on the way, the table holds what the map holds. */
  method RunTable<K(==), V>(hash: K -> nat, ops: seq<TableOp<K, V>>) returns (table: LinearHashTable<K, V>)
    ensures fresh(table) && table.Valid() && table.hash == hash && table.contents == RunMap(ops)
  {
    table := new LinearHashTable(hash);
    assert ops[..0] == [];
    for i := 0 to |ops|
      invariant fresh(table) && table.Valid() && table.hash == hash && table.contents == RunMap(ops[..i])
    {
      assert ops[..i + 1][..i] == ops[..i];
      match ops[i] {
        case Insert(key, value) => var it, inserted := table.Insert(Entry(key, value));
        case Erase(key) => table.Erase(key);
        case Clear => table.Clear();
      }
    }
    assert ops[..|ops|] == ops;
  }

  /** HashMap: operator[] inserts a default value where there is none. */
  class HashMap<K(==), V(==)> {
    const table: LinearHashTable<K, V>

    ghost predicate Valid()
      reads this, table
    {
      table.Valid()
    }

    constructor (hash: K -> nat)
      ensures Valid() && fresh(table) && table.contents == map[]
    {
      table := new LinearHashTable(hash);
    }

    /** The reference is to the value in the table, so that it can be assigned through. */
    method Index(key: K, default: V) returns (reference: Iterator)
      requires Valid()
      modifies table
      ensures Valid() && table.At(reference, key) && key in table.contents
      ensures table.buckets[reference.vec][reference.buck].second == table.contents[key]
      ensures table.contents ==
        if key in old(table.contents) then old(table.contents) else old(table.contents)[key := default]
    {
      var inserted;
      reference, inserted := table.Insert(Entry(key, default));
    }

    /** map[key] = value */
    method Put(key: K, default: V, value: V)
      requires Valid()
      modifies table
      ensures Valid() && table.contents == old(table.contents)[key := value]
    {
      var reference := Index(key, default);
      table.Assign(reference, key, value);
    }

    /** The const operator[], whose NotFoundException is None. */
    method Lookup(key: K) returns (value: Option<V>)
      requires Valid()
      ensures value == if key in table.contents then Some(table.contents[key]) else None
    {
      var it := table.Find(key);
      value := if it != table.End() then Some(table.buckets[it.vec][it.buck].second) else None;
    }

    method Erase(key: K)
      requires Valid()
      modifies table
      ensures Valid() && table.contents == old(table.contents) - {key}
    {
      table.Erase(key);
    }
  }
}
