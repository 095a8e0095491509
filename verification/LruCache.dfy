/** LRUStrategy and AbstractCache as they run: a linked list of keys, an index into it and a map
    of values, kept in step by event callbacks, and proved to behave as LruModel says. */
module LruCache {
  import opened Options
  import opened Sequences
  import opened LruModel

  /** A std::list node; iterators into the list are references to nodes. */
  class ListNode<K> {
    const key: K
    constructor (key: K)
      ensures this.key == key
    {
      this.key := key;
    }
  }

  ghost function KeysOf<K>(nodes: seq<ListNode<K>>): (r: seq<K>)
    ensures |r| == |nodes|
  {
    seq(|nodes|, i requires 0 <= i < |nodes| => nodes[i].key)
  }

  lemma {:induction false} WithoutAt<K>(s: seq<K>, i: nat)
    requires NoDup(s) && i < |s|
    ensures Without(s, s[i]) == s[..i] + s[i + 1..]
  {
    if i > 0 {
      assert s[0] != s[i] && s[1..][i - 1] == s[i];
      WithoutAt(s[1..], i - 1);
      assert s[..i] == [s[0]] + s[1..][..i - 1];
    }
  }

  function Elements<K>(s: seq<K>): set<K> {
    set k | k in s
  }

  /** Every key is in the list once, and the index points at the node that holds it. */
  ghost predicate Linked<K>(nodes: seq<ListNode<K>>, index: map<K, ListNode<K>>) {
    && NoDup(KeysOf(nodes))
    && (forall n <- nodes :: n.key in index && index[n.key] == n)
    && (forall k <- index :: index[k] in nodes && index[k].key == k)
  }

  /** Unlinking the i-th node. */
  lemma Unlink<K>(nodes: seq<ListNode<K>>, index: map<K, ListNode<K>>, i: nat)
    requires Linked(nodes, index) && i < |nodes|
    ensures var rest := nodes[..i] + nodes[i + 1..];
            && KeysOf(rest) == Without(KeysOf(nodes), nodes[i].key)
            && Linked(rest, index - {nodes[i].key})
  {
    var keys, rest, key := KeysOf(nodes), nodes[..i] + nodes[i + 1..], nodes[i].key;
    assert keys[i] == key;
    WithoutAt(keys, i);
    WithoutNoDup(keys, key);
    assert KeysOf(rest) == keys[..i] + keys[i + 1..];
    forall n <- rest ensures n in nodes && n.key != key {
      var j :| 0 <= j < |rest| && rest[j] == n;
      assert KeysOf(rest)[j] == n.key && n == nodes[if j < i then j else j + 1];
    }
    forall k <- index | k != key ensures index[k] in rest {
      var j := IndexOf(nodes, index[k]);
      assert rest[if j < i then j else j - 1] == index[k];
    }
  }

  /** Linking a node with a new key in at the front. */
  lemma Link<K>(nodes: seq<ListNode<K>>, index: map<K, ListNode<K>>, node: ListNode<K>)
    requires Linked(nodes, index) && node.key !in index
    ensures KeysOf([node] + nodes) == [node.key] + KeysOf(nodes)
    ensures Linked([node] + nodes, index[node.key := node])
  {
    var keys := KeysOf([node] + nodes);
    assert keys == [node.key] + KeysOf(nodes);
    forall j | 0 <= j < |nodes| ensures KeysOf(nodes)[j] != node.key { assert nodes[j] in nodes; }
    assert forall n <- [node] + nodes :: n == node || n in nodes;
    assert ([node] + nodes)[0] == node;
    forall n <- nodes ensures n in [node] + nodes { }
  }

  class LruStrategy<K(==)> {
    const size: nat
    var keys: seq<ListNode<K>>
    var keyIndex: map<K, ListNode<K>>

    ghost function Order(): seq<K>
      reads this
    {
      KeysOf(keys)
    }

    ghost predicate Valid()
      reads this
    {
      size >= 1 && Linked(keys, keyIndex)
    }

    constructor (size: nat)
      requires size >= 1
      ensures Valid() && Order() == [] && this.size == size
    {
      this.size := size;
      keys, keyIndex := [], map[];
    }

    /** The index knows exactly the keys of the list. */
    lemma IndexIsOrder()
      requires Valid()
      ensures (forall k <- keyIndex :: k in Order()) && (forall k <- Order() :: k in keyIndex)
      ensures |keyIndex| == |keys|
    {
      forall k <- keyIndex ensures k in Order() {
        var i := IndexOf(keys, keyIndex[k]);
        assert Order()[i] == k;
      }
      forall k <- Order() ensures k in keyIndex {
        var i :| 0 <= i < |keys| && Order()[i] == k;
        assert keys[i] in keys;
      }
      SizeOfKeys(Order(), keyIndex.Keys);
      assert |keyIndex| == |keyIndex.Keys|;
    }

    method OnAdd(key: K)
      modifies this
      ensures Order() == [key] + old(Order())
      ensures keyIndex.Keys == old(keyIndex.Keys) + {key} && keyIndex[key] == keys[0]
      ensures old(Valid()) && key !in old(keyIndex) ==> Valid()
    {
      var node := new ListNode(key);
      if Valid() && key !in keyIndex { Link(keys, keyIndex, node); }
      keys := [node] + keys;
      keyIndex := keyIndex[key := node];
      assert Order() == [key] + old(Order());
    }

    method OnRemove(key: K)
      requires Valid()
      modifies this
      ensures Valid() && Order() == Without(old(Order()), key)
    {
      IndexIsOrder();
      if key in keyIndex {
        var i := IndexOf(keys, keyIndex[key]);
        Unlink(keys, keyIndex, i);
        keys := keys[..i] + keys[i + 1..];
        keyIndex := keyIndex - {key};
      }
    }

    /** A hit moves the node to the front of the list. */
    method OnGet(key: K)
      requires Valid()
      modifies this
      ensures Valid() && keyIndex == old(keyIndex)
      ensures Order() == if key in old(keyIndex) then Touch(old(Order()), key) else old(Order())
    {
      if key in keyIndex {
        var node := keyIndex[key];
        var i := IndexOf(keys, node);
        Unlink(keys, keyIndex, i);
        Link(keys[..i] + keys[i + 1..], keyIndex - {key}, node);
        keys := [node] + (keys[..i] + keys[i + 1..]);
        keyIndex := keyIndex[key := keys[0]];
        assert keyIndex == old(keyIndex) == (old(keyIndex) - {key})[key := node];
      }
    }

    /** AbstractStrategy::onUpdate. */
    method OnUpdate(key: K)
      requires Valid()
      modifies this
      ensures Valid() && Order() == Touch(old(Order()), key)
      ensures (forall x <- Order() :: x == key || x in old(Order())) && (forall x <- old(Order()) :: x in Order())
    {
      WithoutNoDup(Order(), key);
      TouchKeeps(Order(), key);
      OnRemove(key);
      IndexIsOrder();
      OnAdd(key);
    }

    method OnClear()
      requires Valid()
      modifies this
      ensures Valid() && Order() == []
    {
      keys, keyIndex := [], map[];
    }

    method OnIsValid(key: K) returns (valid: bool)
      requires Valid()
      ensures valid <==> key in Order()
    {
      IndexIsOrder();
      valid := key in keyIndex;
    }

    /** The keys to give up: the ones beyond the capacity, walked from the end of the list. */
    method OnReplace() returns (elemsToRemove: set<K>)
      requires Valid()
      ensures elemsToRemove == Elements(Order()[if |Order()| <= size then |Order()| else size..])
    {
      elemsToRemove := {};
      IndexIsOrder();
      var curSize := |keyIndex|;
      if curSize < size {
        assert Order()[|Order()|..] == [];
        return;
      }
      var diff := curSize - size;
      var it, i := |keys| - 1, 0;
      while i < diff
        invariant 0 <= i <= diff
        invariant it == if i < |keys| then |keys| - 1 - i else 0
        invariant elemsToRemove == Elements(Order()[|keys| - i..])
      {
        assert Order()[|keys| - i - 1..] == [keys[it].key] + Order()[|keys| - i..];
        elemsToRemove := elemsToRemove + {keys[it].key};
        if it != 0 { it := it - 1; }
        i := i + 1;
      }
    }
  }

  /** AbstractCache over an LRUStrategy: each event has the strategy's callback as its only delegate. */
  class LruCache<K(==), V> {
    const strategy: LruStrategy<K>
    var data: map<K, V>

    ghost function Model(): Cache<K, V>
      reads this, strategy
    {
      Cache(data, strategy.Order())
    }

    ghost predicate Valid()
      reads this, strategy
    {
      strategy.Valid() && Invariant(Model(), strategy.size)
    }

    constructor (size: nat)
      requires size >= 1
      ensures Valid() && Model() == Cache(map[], []) && strategy.size == size && fresh(strategy)
    {
      strategy := new LruStrategy(size);
      data := map[];
    }

    /** The strategy's index and the data map hold the same keys. */
    lemma IndexIsData()
      requires Valid()
      ensures forall k :: k in strategy.keyIndex <==> k in data
    {
      strategy.IndexIsOrder();
    }

    method DoRemove(key: K)
      requires strategy.Valid()
      modifies this`data, strategy
      ensures strategy.Valid()
      ensures data == old(data) - {key}
      ensures strategy.Order() == if key in old(data) then Without(old(strategy.Order()), key)
                                  else old(strategy.Order())
    {
      if key in data {
        strategy.OnRemove(key);
        data := data - {key};
      } else {
        assert data - {key} == data;
      }
    }

    /** Map and list agree, but the capacity may be exceeded. */
    ghost predicate InStep()
      reads this, strategy
    {
      && strategy.Valid()
      && (forall k <- data :: k in strategy.Order())
      && (forall k <- strategy.Order() :: k in data)
    }

    /** The loop of doReplace, which removes the named keys one by one, in any order. */
    method RemoveAll(keys: set<K>)
      requires InStep() && keys <= data.Keys
      modifies this`data, strategy
      ensures strategy.Valid()
      ensures data == old(data) - keys && strategy.Order() == FilterOut(old(strategy.Order()), keys)
    {
      var delMe := keys;
      ghost var order, before := strategy.Order(), data;
      FilterNothing(order);
      assert keys - delMe == {} && data - {} == data;
      while delMe != {}
        invariant strategy.Valid() && delMe <= keys
        invariant strategy.Order() == FilterOut(order, keys - delMe)
        invariant data == before - (keys - delMe)
        decreases |delMe|
      {
        var key :| key in delMe;
        RemoveStep(order, before, keys, delMe, key);
        DoRemove(key);
        delMe := delMe - {key};
      }
      assert keys - delMe == keys;
    }

    /** The strategy names the keys to give up, the cache removes them. */
    method DoReplace()
      requires InStep()
      modifies this`data, strategy
      ensures Valid() && Model() == Evict(old(Model()), strategy.size)
    {
      var delMe := strategy.OnReplace();
      EvictByFilter(Model(), strategy.size, delMe);
      RemoveAll(delMe);
    }

    /** Add.notify and the insertion that follows it, for a key that is not there. */
    method Insert(key: K, val: V)
      requires InStep() && key !in data
      modifies this`data, strategy
      ensures InStep()
      ensures data == old(data)[key := val] && strategy.Order() == [key] + old(strategy.Order())
    {
      strategy.IndexIsOrder();
      strategy.OnAdd(key);
      data := data[key := val];
    }

    /** Every operation does to the cache what the model's operation does to the model. */
    method Add(key: K, val: V)
      requires Valid()
      modifies this`data, strategy
      ensures Valid() && Model() == Apply(old(Model()), strategy.size, Op.Add(key, val))
    {
      WithoutNoDup(strategy.Order(), key);
      Reinsert(data, key, val);
      DoRemove(key);
      Insert(key, val);
      DoReplace();
    }

    method Update(key: K, val: V)
      requires Valid()
      modifies this`data, strategy
      ensures Valid() && Model() == Apply(old(Model()), strategy.size, Op.Update(key, val))
    {
      if key !in data {
        Insert(key, val);
      } else {
        strategy.OnUpdate(key);
        data := data[key := val];
      }
      DoReplace();
    }

    method Remove(key: K)
      requires Valid()
      modifies this`data, strategy
      ensures Valid() && Model() == Apply(old(Model()), strategy.size, Op.Remove(key))
    {
      ghost var before := Model();
      ghost var after := Removed(before, strategy.size, key);
      DoRemove(key);
      assert Model() == after;
    }

    method Has(key: K) returns (result: bool)
      requires Valid()
      ensures result <==> key in data
    {
      result := false;
      if key in data {
        result := strategy.OnIsValid(key);
      }
    }

    method Get(key: K) returns (result: Option<V>)
      requires Valid()
      modifies this`data, strategy
      ensures Valid() && Model() == Apply(old(Model()), strategy.size, Op.Get(key))
      ensures result == Lookup(old(Model()), key)
      ensures if key in old(data) then result == Some(old(data)[key]) else result == None
    {
      result := None;
      if key in data {
        TouchKeeps(strategy.Order(), key);
        IndexIsData();
        strategy.OnGet(key);
        var valid := strategy.OnIsValid(key);
        if !valid {
          // The source removes the key here; with this strategy every key of the cache is valid.
          assert false;
        } else {
          result := Some(data[key]);
        }
      }
    }

    method Clear()
      requires Valid()
      modifies this`data, strategy
      ensures Valid() && Model() == Apply(old(Model()), strategy.size, Op.Clear)
    {
      strategy.OnClear();
      data := map[];
    }

    method Size() returns (n: nat)
      requires Valid()
      modifies this`data, strategy
      ensures Valid() && Model() == old(Model())
      ensures n == |Model().data| == |Model().order| <= strategy.size
    {
      DoReplace();
      n := |data|;
      SizeOfKeys(strategy.Order(), data.Keys);
    }

    method GetAllKeys() returns (result: set<K>)
      requires Valid()
      modifies this`data, strategy
      ensures Valid() && Model() == old(Model()) && result == data.Keys
    {
      DoReplace();
      result := data.Keys;
    }

    method Perform(op: Op<K, V>)
      requires Valid()
      modifies this`data, strategy
      ensures Valid() && Model() == Apply(old(Model()), strategy.size, op)
    {
      match op
      case Add(key, val) => Add(key, val);
      case Update(key, val) => Update(key, val);
      case Get(key) => var result := Get(key);
      case Has(key) => var result := Has(key);
      case Remove(key) => Remove(key);
      case Clear => Clear();
      case Size => Evicted(Model(), strategy.size); var n := Size();
      case Keys => Evicted(Model(), strategy.size); var keys := GetAllKeys();
    }

    /** A run of the cache is a run of the model. */
    method PerformAll(ops: seq<Op<K, V>>)
      requires Valid() && Model() == Cache(map[], [])
      modifies this`data, strategy
      ensures Valid() && Model() == Run(ops, strategy.size)
    {
      assert ops[..0] == [];
      for i := 0 to |ops|
        invariant Valid() && Model() == Run(ops[..i], strategy.size)
      {
        Perform(ops[i]);
        assert ops[..i + 1][..i] == ops[..i];
      }
      assert ops[..|ops|] == ops;
    }
  }

  lemma Evicted<K, V>(c: Cache<K, V>, n: nat)
    requires Invariant(c, n)
    ensures Evict(c, n) == c
  {
  }

  /** The same calls on a smaller and on a larger cache leave the smaller one with part of what the
      larger one holds, with equal values and in the same order of use. */
  method RunBoth<K(==), V>(ops: seq<Op<K, V>>, n: nat, m: nat) returns (small: LruCache<K, V>, large: LruCache<K, V>)
    requires 1 <= n <= m
    ensures small.Valid() && small.strategy.size == n && large.Valid() && large.strategy.size == m
    ensures Included(small.Model(), n, large.Model(), m)
  {
    small := new LruCache(n);
    large := new LruCache(m);
    small.PerformAll(ops);
    large.PerformAll(ops);
    Inclusion(ops, n, m);
  }

  function FilterOut<K(==)>(s: seq<K>, xs: set<K>): seq<K> {
    if s == [] then [] else if s[0] in xs then FilterOut(s[1..], xs) else [s[0]] + FilterOut(s[1..], xs)
  }

  lemma {:induction false} FilterNothing<K>(s: seq<K>)
    ensures FilterOut(s, {}) == s
  {
    if s != [] { FilterNothing(s[1..]); }
  }

  lemma {:induction false} FilterIn<K>(s: seq<K>, xs: set<K>)
    ensures (forall k <- FilterOut(s, xs) :: k in s && k !in xs) && (forall k <- s | k !in xs :: k in FilterOut(s, xs))
  {
    if s != [] { FilterIn(s[1..], xs); }
  }

  lemma {:induction false} FilterStep<K>(s: seq<K>, xs: set<K>, k: K)
    requires NoDup(s) && k !in xs
    ensures Without(FilterOut(s, xs), k) == FilterOut(s, xs + {k})
  {
    if s != [] {
      FilterStep(s[1..], xs, k);
      if s[0] == k {
        assert k !in s[1..];
        FilterIn(s[1..], xs);
        assert Without(FilterOut(s[1..], xs), k) == FilterOut(s[1..], xs);
      }
    }
  }

  lemma {:induction false} FilterTail<K>(s: seq<K>, n: nat)
    requires NoDup(s) && n <= |s|
    ensures FilterOut(s, Elements(s[n..])) == s[..n]
  {
    if s != [] {
      if n == 0 {
        assert s[0..] == s;
        FilterAll(s, Elements(s));
      } else {
        assert s[n..] == s[1..][n - 1..];
        assert s[0] !in s[n..];
        FilterTail(s[1..], n - 1);
        assert s[..n] == [s[0]] + s[1..][..n - 1];
      }
    }
  }

  lemma {:induction false} FilterAll<K>(s: seq<K>, xs: set<K>)
    requires forall k <- s :: k in xs
    ensures FilterOut(s, xs) == []
  {
    if s != [] { FilterAll(s[1..], xs); }
  }

  lemma RemoveStep<K, V>(order: seq<K>, before: map<K, V>, keys: set<K>, delMe: set<K>, key: K)
    requires NoDup(order) && keys <= before.Keys && key in delMe && delMe <= keys
    ensures key in before - (keys - delMe)
    ensures (before - (keys - delMe)) - {key} == before - (keys - (delMe - {key}))
    ensures Without(FilterOut(order, keys - delMe), key) == FilterOut(order, keys - (delMe - {key}))
  {
    FilterStep(order, keys - delMe, key);
    assert keys - (delMe - {key}) == (keys - delMe) + {key};
  }

  lemma Reinsert<K, V>(m: map<K, V>, k: K, v: V)
    ensures (m - {k})[k := v] == m[k := v]
  {
  }

  /** Removing the keys beyond the capacity is keeping the ones within it. */
  lemma EvictByFilter<K, V>(c: Cache<K, V>, n: nat, doomed: set<K>)
    requires NoDup(c.order) && (forall k <- c.data :: k in c.order) && (forall k <- c.order :: k in c.data)
    requires doomed == Elements(c.order[if |c.order| <= n then |c.order| else n..])
    ensures doomed <= c.data.Keys
    ensures Evict(c, n) == Cache(c.data - doomed, FilterOut(c.order, doomed))
    ensures Invariant(Evict(c, n), n)
  {
    var kept := if |c.order| <= n then |c.order| else n;
    FilterTail(c.order, kept);
    SplitAt(c.order, kept);
    if kept == |c.order| { assert c.order[kept..] == [] && c.order[..kept] == c.order; }
    EvictedData(c, n, doomed, kept);
  }

  lemma EvictedData<K, V>(c: Cache<K, V>, n: nat, doomed: set<K>, kept: nat)
    requires kept <= |c.order| && kept == (if |c.order| <= n then |c.order| else n)
    requires doomed == Elements(c.order[kept..])
    requires forall k <- c.data :: k in c.order[..kept] || k in c.order[kept..]
    requires forall k <- c.order[..kept] :: k in c.data && k !in c.order[kept..]
    ensures Evict(c, n).data == c.data - doomed
  {
    forall k ensures k in Evict(c, n).data <==> k in c.data && k !in doomed {}
    assert Evict(c, n).data.Keys == (c.data - doomed).Keys;
  }

  lemma Removed<K, V>(c: Cache<K, V>, n: nat, key: K) returns (r: Cache<K, V>)
    requires Invariant(c, n)
    ensures r == Apply(c, n, Op.Remove(key)) && Invariant(r, n)
    ensures r == Cache(c.data - {key}, if key in c.data then Without(c.order, key) else c.order)
  {
    r := Apply(c, n, Op.Remove(key));
    WithoutNoDup(c.order, key);
  }

  lemma SplitAt<K>(s: seq<K>, n: nat)
    requires NoDup(s) && n <= |s|
    ensures forall k <- s :: k in s[..n] || k in s[n..]
    ensures forall k <- s[..n] :: k in s && k !in s[n..]
    ensures forall k <- s[n..] :: k in s
  {
  }

  lemma {:induction false} SizeOfKeys<K>(s: seq<K>, keys: set<K>)
    requires NoDup(s) && (forall k <- keys :: k in s) && (forall k <- s :: k in keys)
    ensures |keys| == |s|
  {
    if s == [] {
      assert keys == {};
    } else {
      assert s[0] in s && s[0] in keys;
      assert forall k <- s[1..] :: k in s && k != s[0];
      assert forall k <- keys - {s[0]} :: k in s[1..];
      SizeOfKeys(s[1..], keys - {s[0]});
    }
  }
}
