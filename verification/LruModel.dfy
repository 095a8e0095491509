/** What an LRU cache is: a map and a recency list, and what is true over every run of it. */
module LruModel {
  import opened Options

  /** Stored values, and keys from most to least recently used. */
  datatype Cache<K, V> = Cache(data: map<K, V>, order: seq<K>)

  datatype Op<K, V> =
    | Add(key: K, value: V) | Update(key: K, value: V) | Get(key: K) | Has(key: K)
    | Remove(key: K) | Clear | Size | Keys

  // ---- Recency lists ----

  ghost predicate NoDup<K>(s: seq<K>) {
    forall i, j | 0 <= i < j < |s| :: s[i] != s[j]
  }

  function Without<K(==)>(s: seq<K>, k: K): (r: seq<K>)
    ensures k !in s ==> r == s
    ensures k in s ==> |r| == |s| - 1
    ensures forall x <- r :: x in s
    ensures forall x <- s | x != k :: x in r
  {
    if s == [] then [] else if s[0] == k then s[1..] else [s[0]] + Without(s[1..], k)
  }

  lemma {:induction false} WithoutNoDup<K>(s: seq<K>, k: K)
    requires NoDup(s)
    ensures NoDup(Without(s, k)) && k !in Without(s, k)
  {
    if s != [] {
      assert forall x <- s[1..] :: exists i :: 0 < i < |s| && s[i] == x;
      assert s[0] !in s[1..];
      if s[0] != k {
        WithoutNoDup(s[1..], k);
        var rest := Without(s[1..], k);
        assert forall x <- rest :: x in s[1..];
        assert s[0] !in rest;
      }
    }
  }

  function Touch<K(==)>(s: seq<K>, k: K): seq<K> {
    [k] + Without(s, k)
  }

  // ---- Operations ----

  /** Keep the n most recently used keys. */
  function Evict<K, V>(c: Cache<K, V>, n: nat): Cache<K, V> {
    if |c.order| <= n then c
    else Cache(map k | k in c.data && k in c.order[..n] :: c.data[k], c.order[..n])
  }

  function Apply<K(==), V>(c: Cache<K, V>, n: nat, op: Op<K, V>): Cache<K, V> {
    match op
    case Add(k, v) => Evict(Cache(c.data[k := v], Touch(c.order, k)), n)
    case Update(k, v) => Evict(Cache(c.data[k := v], Touch(c.order, k)), n)
    case Get(k) => if k in c.data then Cache(c.data, Touch(c.order, k)) else c
    case Has(_) => c
    case Remove(k) => Cache(c.data - {k}, Without(c.order, k))
    case Clear => Cache(map[], [])
    case Size => Evict(c, n)
    case Keys => Evict(c, n)
  }

  function Lookup<K, V>(c: Cache<K, V>, k: K): Option<V> {
    if k in c.data then Some(c.data[k]) else None
  }

  /** The cache after a sequence of operations on an empty cache of capacity n. */
  function Run<K(==), V>(ops: seq<Op<K, V>>, n: nat): Cache<K, V> {
    if ops == [] then Cache(map[], []) else Apply(Run(ops[..|ops| - 1], n), n, ops[|ops| - 1])
  }

  /** Map and list hold the same keys, each once, and no more than the capacity. */
  ghost predicate Invariant<K, V>(c: Cache<K, V>, n: nat) {
    NoDup(c.order) && (forall k <- c.data :: k in c.order) && (forall k <- c.order :: k in c.data) && |c.order| <= n
  }

  lemma ApplyKeepsInvariant<K, V>(c: Cache<K, V>, n: nat, op: Op<K, V>)
    requires Invariant(c, n) && n >= 1
    ensures Invariant(Apply(c, n, op), n)
  {
    match op
    case Add(k, v) => TouchKeeps(c.order, k);
    case Update(k, v) => TouchKeeps(c.order, k);
    case Get(k) => TouchKeeps(c.order, k);
    case Remove(k) => WithoutNoDup(c.order, k);
    case _ =>
  }

  lemma TouchKeeps<K>(s: seq<K>, k: K)
    requires NoDup(s)
    ensures NoDup(Touch(s, k)) && k in Touch(s, k)
    ensures (forall x <- Touch(s, k) :: x == k || x in s) && (forall x <- s :: x in Touch(s, k))
    ensures |Touch(s, k)| == if k in s then |s| else |s| + 1
  {
    WithoutNoDup(s, k);
  }

  lemma {:induction false} RunInvariant<K, V>(ops: seq<Op<K, V>>, n: nat)
    requires n >= 1
    ensures Invariant(Run(ops, n), n)
  {
    if ops != [] {
      RunInvariant(ops[..|ops| - 1], n);
      ApplyKeepsInvariant(Run(ops[..|ops| - 1], n), n, ops[|ops| - 1]);
    }
  }

  // ---- Inclusion ----

  predicate Subsequence<K(==)>(a: seq<K>, b: seq<K>) {
    a == [] || (b != [] && if a[0] == b[0] then Subsequence(a[1..], b[1..]) else Subsequence(a, b[1..]))
  }

  lemma {:induction false} SubsequenceIn<K>(a: seq<K>, b: seq<K>)
    requires Subsequence(a, b)
    ensures |a| <= |b| && forall x <- a :: x in b
  {
    if a != [] {
      if a[0] == b[0] { SubsequenceIn(a[1..], b[1..]); } else { SubsequenceIn(a, b[1..]); }
      assert forall x <- a :: x == a[0] || x in a[1..];
      assert forall x <- b[1..] :: x in b;
    }
  }

  lemma {:induction false} SubsequenceWithout<K>(a: seq<K>, b: seq<K>, k: K)
    requires Subsequence(a, b) && NoDup(b)
    ensures Subsequence(Without(a, k), Without(b, k))
  {
    if a != [] {
      SubsequenceIn(a, b);
      var b' := b[1..];
      if a[0] == b[0] {
        SubsequenceWithout(a[1..], b', k);
        if a[0] != k { assert Without(a, k)[1..] == Without(a[1..], k) && Without(b, k)[1..] == Without(b', k); }
      } else {
        SubsequenceWithout(a, b', k);
        SubsequenceIn(a, b');
        if b[0] == k {
          assert k !in b' && k !in a;
        } else {
          assert Without(b, k)[1..] == Without(b', k) && Without(b, k)[0] == b[0];
          SubsequenceSkip(Without(a, k), Without(b, k));
        }
      }
    }
  }

  lemma {:induction false} SubsequenceSkip<K>(a: seq<K>, b: seq<K>)
    requires b != [] && Subsequence(a, b[1..])
    ensures Subsequence(a, b)
  {
    if a != [] && a[0] == b[0] { SubsequenceTail(a, b[1..]); }
  }

  lemma {:induction false} SubsequenceTail<K>(a: seq<K>, b: seq<K>)
    requires a != [] && Subsequence(a, b)
    ensures Subsequence(a[1..], b)
  {
    if a[0] == b[0] { SubsequenceSkip(a[1..], b); } else { SubsequenceTail(a, b[1..]); SubsequenceSkip(a[1..], b); }
  }

  lemma {:induction false} SubsequencePrefix<K>(a: seq<K>, b: seq<K>, n: nat)
    requires Subsequence(a, b) && n <= |a|
    ensures Subsequence(a[..n], b)
  {
    if n > 0 {
      if a[0] == b[0] {
        SubsequencePrefix(a[1..], b[1..], n - 1);
        assert a[..n][1..] == a[1..][..n - 1];
      } else {
        SubsequencePrefix(a, b[1..], n);
      }
    }
  }

  lemma {:induction false} SubsequenceDropLast<K>(a: seq<K>, b: seq<K>)
    requires Subsequence(a, b) && a != []
    ensures b != [] && Subsequence(a[..|a| - 1], b[..|b| - 1])
  {
    SubsequenceIn(a, b);
    if |a| > 1 {
      if a[0] == b[0] {
        SubsequenceDropLast(a[1..], b[1..]);
        assert a[..|a| - 1][1..] == a[1..][..|a| - 2] && b[..|b| - 1][1..] == b[1..][..|b| - 2];
      } else {
        SubsequenceDropLast(a, b[1..]);
        assert b[..|b| - 1][1..] == b[1..][..|b| - 2];
      }
    }
  }

  /** What the smaller cache s and the larger cache l have to do with each other. */
  ghost predicate Included<K, V>(s: Cache<K, V>, n: nat, l: Cache<K, V>, m: nat) {
    && Invariant(s, n) && Invariant(l, m)
    && Subsequence(s.order, l.order)
    && (forall k <- s.data :: k in l.data && l.data[k] == s.data[k])
    && |l.order| - |s.order| <= m - n
  }

  lemma TouchIncluded<K, V>(s: Cache<K, V>, n: nat, l: Cache<K, V>, m: nat, k: K)
    requires 1 <= n <= m && Included(s, n, l, m)
    ensures Subsequence(Touch(s.order, k), Touch(l.order, k))
    ensures |Touch(l.order, k)| - |Touch(s.order, k)| <= m - n
  {
    SubsequenceWithout(s.order, l.order, k);
    SubsequenceIn(s.order, l.order);
    assert Touch(s.order, k)[1..] == Without(s.order, k) && Touch(l.order, k)[1..] == Without(l.order, k);
  }

  lemma StoreIncluded<K, V>(s: Cache<K, V>, n: nat, l: Cache<K, V>, m: nat, k: K, v: V)
    requires 1 <= n <= m && Included(s, n, l, m)
    ensures Included(Apply(s, n, Add(k, v)), n, Apply(l, m, Add(k, v)), m)
  {
    ApplyKeepsInvariant(s, n, Add(k, v));
    ApplyKeepsInvariant(l, m, Add(k, v));
    TouchIncluded(s, n, l, m, k);
    TouchKeeps(s.order, k);
    TouchKeeps(l.order, k);
    EvictIncluded(Cache(s.data[k := v], Touch(s.order, k)), n, Cache(l.data[k := v], Touch(l.order, k)), m);
  }

  /** Both caches give up what is beyond their capacity, one key at most. */
  lemma EvictIncluded<K, V>(s: Cache<K, V>, n: nat, l: Cache<K, V>, m: nat)
    requires 1 <= n <= m && Subsequence(s.order, l.order) && |l.order| - |s.order| <= m - n
    requires |s.order| <= n + 1 && |l.order| <= m + 1
    requires forall k <- s.data :: k in s.order && k in l.data && l.data[k] == s.data[k]
    ensures var s', l' := Evict(s, n), Evict(l, m);
            && Subsequence(s'.order, l'.order) && |l'.order| - |s'.order| <= m - n
            && (forall k <- s'.data :: k in l'.data && l'.data[k] == s'.data[k])
  {
    var s', l' := Evict(s, n), Evict(l, m);
    if |l.order| > m {
      SubsequenceDropLast(s.order, l.order);
    } else if |s.order| > n {
      SubsequencePrefix(s.order, l.order, n);
    }
    SubsequenceIn(s'.order, l'.order);
    assert forall k <- s'.data :: k in s'.order;
  }

  lemma StepIncluded<K, V>(s: Cache<K, V>, n: nat, l: Cache<K, V>, m: nat, op: Op<K, V>)
    requires 1 <= n <= m && Included(s, n, l, m)
    ensures Included(Apply(s, n, op), n, Apply(l, m, op), m)
  {
    ApplyKeepsInvariant(s, n, op);
    ApplyKeepsInvariant(l, m, op);
    SubsequenceIn(s.order, l.order);
    match op
    case Add(k, v) => StoreIncluded(s, n, l, m, k, v);
    case Update(k, v) => StoreIncluded(s, n, l, m, k, v);
    case Get(k) =>
      if k in s.data {
        TouchIncluded(s, n, l, m, k);
      } else if k in l.data {
        SubsequenceWithout(s.order, l.order, k);
        assert Touch(l.order, k)[1..] == Without(l.order, k);
        SubsequenceSkip(s.order, Touch(l.order, k));
      }
    case Remove(k) => SubsequenceWithout(s.order, l.order, k);
    case _ =>
  }

  /** The same operations on two caches: at every point the smaller one holds a part of what the
      larger one holds, with equal values and in the same order of use. */
  lemma {:induction false} Inclusion<K, V>(ops: seq<Op<K, V>>, n: nat, m: nat)
    requires 1 <= n <= m
    ensures Included(Run(ops, n), n, Run(ops, m), m)
  {
    if ops != [] {
      Inclusion(ops[..|ops| - 1], n, m);
      StepIncluded(Run(ops[..|ops| - 1], n), n, Run(ops[..|ops| - 1], m), m, ops[|ops| - 1]);
    }
  }

  /** A read that hits in the smaller cache hits in the larger one, with the same value. */
  lemma HitsAreIncluded<K, V>(ops: seq<Op<K, V>>, n: nat, m: nat, k: K)
    requires 1 <= n <= m && Lookup(Run(ops, n), k).Some?
    ensures Lookup(Run(ops, m), k) == Lookup(Run(ops, n), k)
  {
    Inclusion(ops, n, m);
  }

  // ---- Recency and values, told from the history alone ----

  predicate Stores<K(==), V>(op: Op<K, V>, k: K) {
    (op.Add? || op.Update?) && op.key == k
  }

  /** When k was last added, updated or successfully read: one more than the position in the
      history, and 0 for never. */
  function LastUse<K(==), V>(ops: seq<Op<K, V>>, n: nat, k: K): (t: nat)
    ensures t <= |ops|
  {
    if ops == [] then 0
    else
      var before, op := ops[..|ops| - 1], ops[|ops| - 1];
      if Stores(op, k) || (op == Get(k) && k in Run(before, n).data) then |ops| else LastUse(before, n, k)
  }

  /** The value most recently stored under k. */
  function LastStored<K(==), V>(ops: seq<Op<K, V>>, k: K): Option<V> {
    if ops == [] then None
    else if Stores(ops[|ops| - 1], k) then Some(ops[|ops| - 1].value)
    else LastStored(ops[..|ops| - 1], k)
  }

  ghost predicate SortedByUse<K, V>(ops: seq<Op<K, V>>, n: nat, order: seq<K>) {
    forall i, j | 0 <= i < j < |order| :: LastUse(ops, n, order[i]) > LastUse(ops, n, order[j])
  }

  lemma WithoutSorted<K, V>(ops: seq<Op<K, V>>, n: nat, s: seq<K>, k: K)
    requires SortedByUse(ops, n, s)
    ensures SortedByUse(ops, n, Without(s, k))
  {
    var use := (x: K) => LastUse(ops, n, x);
    assert Falling(s, use);
    WithoutFalling(s, k, use);
    assert Falling(Without(s, k), use);
  }

  ghost predicate Falling<K>(s: seq<K>, f: K -> int) {
    forall i, j | 0 <= i < j < |s| :: f(s[i]) > f(s[j])
  }

  lemma {:induction false} WithoutFalling<K>(s: seq<K>, k: K, f: K -> int)
    requires Falling(s, f)
    ensures Falling(Without(s, k), f)
  {
    if s != [] && s[0] != k {
      WithoutFalling(s[1..], k, f);
      forall x <- Without(s[1..], k) ensures f(s[0]) > f(x) {
        assert x in s[1..];
        var i :| 0 <= i < |s[1..]| && s[1..][i] == x;
        assert s[i + 1] == x;
      }
    }
  }

  /** The recency list is sorted by the time of last use, most recent first. */
  lemma {:induction false} OrderIsRecency<K, V>(ops: seq<Op<K, V>>, n: nat)
    requires n >= 1
    ensures SortedByUse(ops, n, Run(ops, n).order)
  {
    if ops != [] {
      var before, op := ops[..|ops| - 1], ops[|ops| - 1];
      var c := Run(before, n);
      OrderIsRecency(before, n);
      RunInvariant(before, n);
      match op
      case Add(k, _) => TouchSorted(ops, n, c.order, k);
      case Update(k, _) => TouchSorted(ops, n, c.order, k);
      case Get(k) =>
        if k in c.data {
          TouchSorted(ops, n, c.order, k);
        } else {
          SameUse(ops, n, c.order);
        }
      case Remove(k) => WithoutSorted(before, n, c.order, k); SameUse(ops, n, Without(c.order, k));
      case _ => SameUse(ops, n, c.order);
    }
  }

  lemma SameUse<K, V>(ops: seq<Op<K, V>>, n: nat, order: seq<K>)
    requires ops != [] && SortedByUse(ops[..|ops| - 1], n, order)
    requires forall k <- order :: LastUse(ops, n, k) == LastUse(ops[..|ops| - 1], n, k)
    ensures SortedByUse(ops, n, order)
  {
  }

  lemma TouchSorted<K, V>(ops: seq<Op<K, V>>, n: nat, order: seq<K>, k: K)
    requires ops != [] && NoDup(order) && SortedByUse(ops[..|ops| - 1], n, order)
    requires LastUse(ops, n, k) == |ops|
    requires forall x <- order | x != k :: LastUse(ops, n, x) == LastUse(ops[..|ops| - 1], n, x)
    ensures SortedByUse(ops, n, Touch(order, k))
  {
    var rest := Without(order, k);
    WithoutSorted(ops[..|ops| - 1], n, order, k);
    WithoutNoDup(order, k);
    SameUse(ops, n, rest);
    assert forall x <- rest :: LastUse(ops, n, x) < |ops|;
  }

  /** After storing k in a full cache everything is still there except one victim. */
  ghost predicate OnlyLoses<K, V>(before: map<K, V>, after: map<K, V>, k: K, victim: K) {
    && k in after
    && (forall x <- after :: x == k || (x in before && x != victim))
    && (forall x <- before | x != victim :: x in after)
  }

  lemma SplitLast<K>(s: seq<K>)
    requires s != [] && NoDup(s)
    ensures forall x <- s :: x == s[|s| - 1] || x in s[..|s| - 1]
    ensures forall x <- s[..|s| - 1] :: x in s && x != s[|s| - 1]
  {
  }

  /** Storing a new key in a full cache evicts the last key of the list. */
  lemma EvictsLast<K, V>(c: Cache<K, V>, n: nat, k: K, v: V)
    requires n >= 1 && Invariant(c, n) && k !in c.data && |c.order| == n
    ensures OnlyLoses(c.data, Apply(c, n, Add(k, v)).data, k, c.order[n - 1])
  {
    var t := Touch(c.order, k);
    assert t[..n] == [k] + c.order[..n - 1];
    SplitLast(c.order);
  }

  /** The evicted key is the one used longest ago. */
  lemma EvictsLeastRecentlyUsed<K, V>(ops: seq<Op<K, V>>, n: nat, k: K, v: V)
    requires n >= 1 && k !in Run(ops, n).data && |Run(ops, n).order| == n
    ensures var c := Run(ops, n);
            var victim := c.order[n - 1];
            && OnlyLoses(c.data, Run(ops + [Add(k, v)], n).data, k, victim)
            && forall x <- c.data | x != victim :: LastUse(ops, n, victim) < LastUse(ops, n, x)
  {
    RunInvariant(ops, n);
    LastIsOldest(ops, n);
    RunOneMore(ops, Add(k, v), n);
    EvictsLast(Run(ops, n), n, k, v);
  }

  lemma RunOneMore<K, V>(ops: seq<Op<K, V>>, op: Op<K, V>, n: nat)
    ensures Run(ops + [op], n) == Apply(Run(ops, n), n, op)
  {
    assert (ops + [op])[..|ops|] == ops;
  }

  lemma LastIsOldest<K, V>(ops: seq<Op<K, V>>, n: nat)
    requires n >= 1 && Run(ops, n).order != []
    ensures var c := Run(ops, n);
            forall x <- c.data | x != c.order[|c.order| - 1] ::
              LastUse(ops, n, c.order[|c.order| - 1]) < LastUse(ops, n, x)
  {
    RunInvariant(ops, n);
    OrderIsRecency(ops, n);
    LastOfSorted(ops, n, Run(ops, n).order);
  }

  lemma LastOfSorted<K, V>(ops: seq<Op<K, V>>, n: nat, order: seq<K>)
    requires order != [] && SortedByUse(ops, n, order)
    ensures forall x <- order | x != order[|order| - 1] :: LastUse(ops, n, order[|order| - 1]) < LastUse(ops, n, x)
  {
  }

  /** Every stored value is the one last added or updated under its key. */
  lemma {:induction false} ValuesAreLastStored<K, V>(ops: seq<Op<K, V>>, n: nat, k: K)
    requires k in Run(ops, n).data
    ensures LastStored(ops, k) == Some(Run(ops, n).data[k])
  {
    if ops != [] && !Stores(ops[|ops| - 1], k) {
      assert k in Run(ops[..|ops| - 1], n).data;
      ValuesAreLastStored(ops[..|ops| - 1], n, k);
    }
  }

  // ---- What is held, told without the list ----

  /** The operations on a map that has room for everything. */
  function Effect<K, V>(data: map<K, V>, op: Op<K, V>): map<K, V> {
    match op
    case Add(k, v) => data[k := v]
    case Update(k, v) => data[k := v]
    case Get(_) => data
    case Has(_) => data
    case Remove(k) => data - {k}
    case Clear => map[]
    case Size => data
    case Keys => data
  }

  function Effects<K, V>(ops: seq<Op<K, V>>): map<K, V> {
    if ops == [] then map[] else Effect(Effects(ops[..|ops| - 1]), ops[|ops| - 1])
  }

  lemma {:induction false} SameSize<K>(order: seq<K>, keys: set<K>)
    requires NoDup(order) && (forall k <- order :: k in keys) && forall k <- keys :: k in order
    ensures |order| == |keys|
  {
    if order != [] {
      SplitLast(order);
      SameSize(order[..|order| - 1], keys - {order[|order| - 1]});
    }
  }

  /** Storing in a cache: the entry is held, and nothing is lost for it while there is room. */
  lemma StoreHolds<K, V>(c: Cache<K, V>, n: nat, k: K, v: V)
    requires n >= 1
    ensures var d := Evict(Cache(c.data[k := v], Touch(c.order, k)), n).data; k in d && d[k] == v
  {
    if |Touch(c.order, k)| > n { assert Touch(c.order, k)[..n][0] == k; }
  }

  lemma StoreFits<K, V>(c: Cache<K, V>, n: nat, k: K, v: V)
    requires Invariant(c, n) && |c.data[k := v]| <= n
    ensures Evict(Cache(c.data[k := v], Touch(c.order, k)), n).data == c.data[k := v]
  {
    TouchKeeps(c.order, k);
    SameSize(Touch(c.order, k), c.data[k := v].Keys);
  }

  /** An operation leaves in the cache what it leaves in a map, unless that is beyond the capacity. */
  lemma EffectOfOperation<K, V>(c: Cache<K, V>, n: nat, op: Op<K, V>)
    requires Invariant(c, n) && |Effect(c.data, op)| <= n
    ensures Apply(c, n, op).data == Effect(c.data, op)
  {
    match op
    case Add(k, v) => StoreFits(c, n, k, v);
    case Update(k, v) => StoreFits(c, n, k, v);
    case _ =>
  }

  lemma OneMoreKey<K, V>(data: map<K, V>, k: K, v: V)
    ensures |data[k := v]| == |data| + if k in data then 0 else 1
  {
    assert data[k := v].Keys == data.Keys + {k};
  }

  /** What was stored is held, with the value that was stored; and nothing is lost for it while there is room. */
  lemma StoredIsHeld<K, V>(ops: seq<Op<K, V>>, op: Op<K, V>, n: nat, k: K)
    requires n >= 1 && Stores(op, k)
    ensures var d, d' := Run(ops, n).data, Run(ops + [op], n).data;
            && k in d' && d'[k] == op.value && Lookup(Run(ops + [op], n), k) == Some(op.value)
            && (k in d || |d| < n ==> d' == d[k := op.value])
  {
    var c := Run(ops, n);
    RunOneMore(ops, op, n);
    StoreHolds(c, n, k, op.value);
    RunInvariant(ops, n);
    SameSize(c.order, c.data.Keys);
    OneMoreKey(c.data, k, op.value);
    if k in c.data || |c.data| < n { EffectOfOperation(c, n, op); }
  }

  /** As long as a map would not outgrow the capacity, the cache is that map. */
  lemma {:induction false} RunsAsMap<K, V>(ops: seq<Op<K, V>>, n: nat)
    requires n >= 1 && forall i | 0 <= i <= |ops| :: |Effects(ops[..i])| <= n
    ensures Run(ops, n).data == Effects(ops)
  {
    if ops != [] {
      var before := ops[..|ops| - 1];
      forall i | 0 <= i <= |before| ensures |Effects(before[..i])| <= n { assert before[..i] == ops[..i]; }
      RunsAsMap(before, n);
      RunInvariant(before, n);
      assert ops[..|ops|] == ops;
      EffectOfOperation(Run(before, n), n, ops[|ops| - 1]);
    }
  }

  /** What a removal or a clearing takes out is not held, and nothing else goes. */
  lemma RemovedIsGone<K, V>(ops: seq<Op<K, V>>, n: nat, k: K)
    ensures Run(ops + [Remove(k)], n).data == Run(ops, n).data - {k} && Lookup(Run(ops + [Remove(k)], n), k) == None
    ensures Run(ops + [Clear], n).data == map[]
  {
    RunOneMore(ops, Remove(k), n);
    RunOneMore(ops, Clear, n);
  }
}
