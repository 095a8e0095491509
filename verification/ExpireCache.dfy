/** ExpireStrategy, AccessExpireStrategy and AbstractCache over them: a map from keys to entries of
    a time-sorted index, read against a clock that may move at every reading. */
module ExpireCache {
  import opened Options
  import opened Sequences
  import opened ExpireModel

  /** The system clock: every reading may be later than the one before, never earlier. */
  class Clock {
    var now: int

    method Read() returns (t: int)
      modifies this
      ensures t == now && old(now) <= now
    {
      var passed: int :| passed >= 0;
      now := now + passed;
      t := now;
    }
  }

  /** An entry of the std::multimap; iterators into it are references to entries. */
  class TimeNode<K> {
    const time: int
    const key: K
    constructor (time: int, key: K)
      ensures this.time == time && this.key == key
    {
      this.time, this.key := time, key;
    }
  }

  ghost predicate Sorted<K>(index: seq<TimeNode<K>>) {
    forall i, j | 0 <= i < j < |index| :: index[i].time <= index[j].time && index[i] != index[j]
  }

  /** The key map and the sorted index are in bijection. */
  ghost predicate Linked<K>(index: seq<TimeNode<K>>, keys: map<K, TimeNode<K>>) {
    && Sorted(index)
    && (forall n <- index :: n.key in keys && keys[n.key] == n)
    && (forall k <- keys :: keys[k] in index && keys[k].key == k)
  }

  function Without<K>(index: seq<TimeNode<K>>, n: TimeNode<K>): seq<TimeNode<K>>
    requires n in index
  {
    index[..IndexOf(index, n)] + index[IndexOf(index, n) + 1..]
  }

  lemma WithoutOne<K>(index: seq<TimeNode<K>>, n: TimeNode<K>)
    requires Sorted(index) && n in index
    ensures Sorted(Without(index, n))
    ensures forall m <- Without(index, n) :: m in index && m != n
    ensures forall m <- index | m != n :: m in Without(index, n)
  {
    var i, rest := IndexOf(index, n), Without(index, n);
    assert forall j | 0 <= j < |rest| :: rest[j] == index[if j < i then j else j + 1];
    forall m <- rest ensures m in index && m != n {
      var j :| 0 <= j < |rest| && rest[j] == m;
      assert m == index[if j < i then j else j + 1];
    }
    forall m <- index | m != n ensures m in rest {
      var j := IndexOf(index, m);
      assert rest[if j < i then j else j - 1] == m;
    }
  }

  lemma Unlink<K>(index: seq<TimeNode<K>>, keys: map<K, TimeNode<K>>, n: TimeNode<K>)
    requires Linked(index, keys) && n in index
    ensures Linked(Without(index, n), keys - {n.key})
  {
    WithoutOne(index, n);
  }

  /** A multimap puts a new entry behind all entries that are not later. */
  function Insert<K>(index: seq<TimeNode<K>>, n: TimeNode<K>): (r: seq<TimeNode<K>>)
    ensures n in r && (forall m <- index :: m in r) && (forall m <- r :: m == n || m in index)
  {
    if index == [] || index[0].time > n.time then [n] + index else [index[0]] + Insert(index[1..], n)
  }

  lemma {:induction false} InsertIsBehind<K>(index: seq<TimeNode<K>>, n: TimeNode<K>, i: nat)
    requires i <= |index| && (forall j | 0 <= j < i :: index[j].time <= n.time)
    requires i < |index| ==> index[i].time > n.time
    ensures Insert(index, n) == index[..i] + [n] + index[i..]
  {
    if i > 0 { InsertIsBehind(index[1..], n, i - 1); }
  }

  lemma SortedHead<K>(index: seq<TimeNode<K>>)
    requires index != [] && Sorted(index)
    ensures Sorted(index[1..]) && forall m <- index[1..] :: index[0].time <= m.time && m != index[0]
  {
  }

  lemma SortedCons<K>(n: TimeNode<K>, index: seq<TimeNode<K>>)
    requires Sorted(index) && forall m <- index :: n.time <= m.time && m != n
    ensures Sorted([n] + index)
  {
    assert forall j | 0 <= j < |index| :: index[j] in index;
  }

  lemma {:induction false} InsertSorted<K>(index: seq<TimeNode<K>>, n: TimeNode<K>)
    requires Sorted(index) && n !in index
    ensures Sorted(Insert(index, n))
  {
    if index == [] {
    } else {
      SortedHead(index);
      if index[0].time > n.time {
        assert index == [index[0]] + index[1..];
        SortedCons(n, index);
      } else {
        InsertSorted(index[1..], n);
        SortedCons(index[0], Insert(index[1..], n));
      }
    }
  }

  lemma Link<K>(index: seq<TimeNode<K>>, keys: map<K, TimeNode<K>>, n: TimeNode<K>)
    requires Linked(index, keys) && n.key !in keys
    ensures Linked(Insert(index, n), keys[n.key := n])
  {
    InsertSorted(index, n);
  }

  /** ExpireStrategy; with `onAccess`, AccessExpireStrategy, which overrides onGet. */
  class ExpireStrategy<K(==)> {
    const expireTime: int
    const onAccess: bool
    const clock: Clock
    var keys: map<K, TimeNode<K>>
    var keyIndex: seq<TimeNode<K>>

    ghost predicate Valid()
      reads this
    {
      Linked(keyIndex, keys)
    }

    ghost function Times(): map<K, int>
      reads this
    {
      map k | k in keys :: keys[k].time
    }

    constructor (expireTime: int, onAccess: bool, clock: Clock)
      ensures Valid() && Times() == map[]
      ensures this.expireTime == expireTime && this.onAccess == onAccess && this.clock == clock
    {
      this.expireTime, this.onAccess, this.clock := expireTime, onAccess, clock;
      keys, keyIndex := map[], [];
    }

    /** Takes a key out of map and index. */
    method Unindex(key: K)
      requires Valid() && key in keys
      modifies this
      ensures Valid() && key !in keys && Times() == old(Times()) - {key}
    {
      var node := keys[key];
      Unlink(keyIndex, keys, node);
      keyIndex := Without(keyIndex, node);
      keys := keys - {key};
    }

    /** Puts a new entry into map and index. */
    method Index(key: K, now: int)
      requires Valid() && key !in keys
      modifies this
      ensures Valid() && Times() == old(Times())[key := now]
    {
      var node := new TimeNode(now, key);
      Link(keyIndex, keys, node);
      keyIndex := Insert(keyIndex, node);
      keys := keys[key := node];
    }

    /** Indexes a key under the current time; an entry it already had makes way. */
    method OnAdd(key: K)
      requires Valid()
      modifies this, clock
      ensures Valid() && old(clock.now) <= clock.now
      ensures Times() == old(Times())[key := clock.now]
    {
      var now := clock.Read();
      Reinsert(Times(), key, now);
      if key in keys { Unindex(key); }
      Index(key, now);
    }

    method OnRemove(key: K)
      requires Valid()
      modifies this
      ensures Valid() && Times() == old(Times()) - {key}
    {
      if key in keys { Unindex(key); }
    }

    /** AbstractStrategy::onUpdate. */
    method OnUpdate(key: K)
      requires Valid()
      modifies this, clock
      ensures Valid() && old(clock.now) <= clock.now
      ensures Times() == old(Times())[key := clock.now]
    {
      OnRemove(key);
      OnAdd(key);
      Reinsert(old(Times()), key, clock.now);
    }

    method OnGet(key: K)
      requires Valid()
      modifies this, clock
      ensures Valid() && old(clock.now) <= clock.now
      ensures Times() == if onAccess && key in old(Times()) then old(Times())[key := clock.now] else old(Times())
      ensures !onAccess ==> clock.now == old(clock.now)
    {
      if onAccess && key in keys {
        Unindex(key);
        var now := clock.Read();
        Index(key, now);
        Reinsert(old(Times()), key, now);
      }
    }

    method OnClear()
      modifies this
      ensures Valid() && Times() == map[]
    {
      keys, keyIndex := map[], [];
    }

    method OnIsValid(key: K) returns (valid: bool)
      requires Valid()
      modifies clock
      ensures old(clock.now) <= clock.now
      ensures valid <==> key in Times() && !Elapsed(clock.now, Times()[key], expireTime)
    {
      valid := true;
      if key in keys {
        var now := clock.Read();
        if Elapsed(now, keys[key].time, expireTime) { valid := false; }
      } else {
        valid := false;
      }
    }

    /** Walks the index from its oldest entry as long as entries have expired, reading the clock
        for each.  What it names is what has expired by the last reading, all of it. */
    method OnReplace() returns (elemsToRemove: set<K>)
      requires Valid()
      modifies clock
      ensures old(clock.now) <= clock.now
      ensures elemsToRemove == set k | k in Times() && Elapsed(clock.now, Times()[k], expireTime)
    {
      elemsToRemove := {};
      var it := 0;
      while it != |keyIndex|
        invariant it <= |keyIndex| && old(clock.now) <= clock.now
        invariant forall j | 0 <= j < it ::
                    Elapsed(clock.now, keyIndex[j].time, expireTime) && keyIndex[j].key in elemsToRemove
        invariant forall k <- elemsToRemove :: k in keys && Elapsed(clock.now, keys[k].time, expireTime)
        decreases |keyIndex| - it
      {
        var now := clock.Read();
        assert keyIndex[it] in keyIndex;
        if !Elapsed(now, keyIndex[it].time, expireTime) { break; }
        elemsToRemove := elemsToRemove + {keyIndex[it].key};
        it := it + 1;
      }
      forall k | k in keys && Elapsed(clock.now, keys[k].time, expireTime) ensures k in elemsToRemove {
        var j := IndexOf(keyIndex, keys[k]);
      }
    }
  }

  /** AbstractCache over such a strategy: ExpireCache, or AccessExpireCache with `onAccess`. */
  class ExpiringCache<K(==), V> {
    const strategy: ExpireStrategy<K>
    const clock: Clock
    var data: map<K, V>

    ghost function Model(): Timed<K, V>
      reads this, strategy
    {
      Timed(data, strategy.Times())
    }

    ghost predicate Valid()
      reads this, strategy
    {
      strategy.Valid() && strategy.clock == clock && data.Keys == strategy.Times().Keys
    }

    constructor (expireTime: int, onAccess: bool, clock: Clock)
      ensures Valid() && Model() == Timed(map[], map[]) && fresh(strategy)
      ensures strategy.expireTime == expireTime && strategy.onAccess == onAccess && this.clock == clock
    {
      strategy := new ExpireStrategy(expireTime, onAccess, clock);
      this.clock := clock;
      data := map[];
    }

    method DoRemove(key: K)
      requires Valid()
      modifies this`data, strategy
      ensures Valid() && Model() == Apply(old(Model()), Removed(key), strategy.expireTime)
    {
      if key in data {
        strategy.OnRemove(key);
        data := data - {key};
      } else {
        assert data - {key} == data && strategy.Times() - {key} == strategy.Times();
      }
    }

    /** Removes the keys the strategy names, in any order. */
    method DoReplace()
      requires Valid()
      modifies this`data, strategy, clock
      ensures Valid() && old(clock.now) <= clock.now
      ensures Model() == Apply(old(Model()), Purged(clock.now), strategy.expireTime)
    {
      var delMe := strategy.OnReplace();
      assert delMe == Expired(Model(), clock.now, strategy.expireTime);
      RemoveAll(delMe);
    }

    method RemoveAll(keys: set<K>)
      requires Valid()
      modifies this`data, strategy
      ensures Valid() && Model() == Drop(old(Model()), keys)
    {
      var delMe := keys;
      ghost var before := Model();
      assert keys - delMe == {} && Drop(before, {}) == before;
      while delMe != {}
        invariant Valid() && delMe <= keys && Model() == Drop(before, keys - delMe)
        decreases delMe
      {
        var key :| key in delMe;
        RemoveNext(key, before, keys, delMe);
        delMe := delMe - {key};
      }
      assert keys - delMe == keys;
    }

    method RemoveNext(key: K, ghost before: Timed<K, V>, ghost keys: set<K>, ghost left: set<K>)
      requires Valid() && key in left && left <= keys && Model() == Drop(before, keys - left)
      modifies this`data, strategy
      ensures Valid() && Model() == Drop(before, keys - (left - {key}))
    {
      ghost var next := DropOneMore(before, Model(), keys, left, key);
      DoRemove(key);
      assert Model() == next;
    }

    /** add: an old entry goes first, then the new one is stored, then what has expired goes. */
    method Add(key: K, val: V) returns (ghost t: int)
      requires Valid()
      modifies this`data, strategy, clock
      ensures Valid() && old(clock.now) <= clock.now
      ensures old(clock.now) <= t <= clock.now
      ensures var limit := strategy.expireTime;
              Model() == Apply(Apply(old(Model()), Stored(key, val, t), limit), Purged(clock.now), limit)
    {
      Store(key, val);
      t := clock.now;
      DoReplace();
    }

    method Store(key: K, val: V)
      requires Valid()
      modifies this`data, strategy, clock
      ensures Valid() && old(clock.now) <= clock.now
      ensures Model() == Apply(old(Model()), Stored(key, val, clock.now), strategy.expireTime)
    {
      ghost var before := Model();
      DoRemove(key);
      strategy.OnAdd(key);
      data := data[key := val];
      ghost var after := StoredOver(before, key, val, clock.now, strategy.expireTime);
      assert Model() == after;
    }

    method Update(key: K, val: V) returns (ghost t: int)
      requires Valid()
      modifies this`data, strategy, clock
      ensures Valid() && old(clock.now) <= clock.now
      ensures old(clock.now) <= t <= clock.now
      ensures var limit := strategy.expireTime;
              Model() == Apply(Apply(old(Model()), Stored(key, val, t), limit), Purged(clock.now), limit)
    {
      if key !in data {
        strategy.OnAdd(key);
        data := data[key := val];
      } else {
        strategy.OnUpdate(key);
        data := data[key := val];
      }
      t := clock.now;
      assert Model() == Apply(old(Model()), Stored(key, val, t), strategy.expireTime);
      DoReplace();
    }

    method Remove(key: K)
      requires Valid()
      modifies this`data, strategy
      ensures Valid() && Model() == Apply(old(Model()), Removed(key), strategy.expireTime)
    {
      DoRemove(key);
    }

    method Has(key: K) returns (result: bool)
      requires Valid()
      modifies clock
      ensures old(clock.now) <= clock.now
      ensures result <==> key in data && !Elapsed(clock.now, strategy.Times()[key], strategy.expireTime)
    {
      result := false;
      if key in data {
        result := strategy.OnIsValid(key);
      }
    }

    /** Get.notify and IsValid.notify, in this order. */
    method Probe(key: K) returns (valid: bool, ghost t: int)
      requires Valid() && key in data
      modifies strategy, clock
      ensures Valid() && old(clock.now) <= t <= clock.now
      ensures strategy.Times() == if strategy.onAccess then old(strategy.Times())[key := t] else old(strategy.Times())
      ensures valid <==> !Elapsed(clock.now, strategy.Times()[key], strategy.expireTime)
    {
      strategy.OnGet(key);
      t := clock.now;
      valid := strategy.OnIsValid(key);
    }

    method Get(key: K) returns (result: Option<V>, ghost t: int)
      requires Valid()
      modifies this`data, strategy, clock
      ensures Valid() && old(clock.now) <= clock.now
      ensures old(clock.now) <= t <= clock.now
      ensures Model() == Apply(old(Model()), ReadStep(strategy.onAccess, key, t, clock.now), strategy.expireTime)
      ensures result == Result(old(Model()), ReadStep(strategy.onAccess, key, t, clock.now), strategy.expireTime)
    {
      if key !in data {
        Missed(Model(), key, ReadStep(strategy.onAccess, key, clock.now, clock.now), strategy.expireTime);
        return None, clock.now;
      }
      result, t := GetHeld(key);
    }

    method GetHeld(key: K) returns (result: Option<V>, ghost t: int)
      requires Valid() && key in data
      modifies this`data, strategy, clock
      ensures Valid() && old(clock.now) <= t <= clock.now
      ensures Model() == Apply(old(Model()), ReadStep(strategy.onAccess, key, t, clock.now), strategy.expireTime)
      ensures result == Result(old(Model()), ReadStep(strategy.onAccess, key, t, clock.now), strategy.expireTime)
    {
      ghost var before, limit := Model(), strategy.expireTime;
      var valid;
      valid, t := Probe(key);
      ghost var times := strategy.Times();
      ghost var after, delivered := ReadOutcome(before, key, strategy.onAccess, t, clock.now, limit, times);
      result := Deliver(key, valid);
      assert Model() == after && result == delivered;
    }

    /** An entry found invalid goes. */
    method Deliver(key: K, valid: bool) returns (result: Option<V>)
      requires Valid() && key in data
      modifies this`data, strategy
      ensures Valid()
      ensures valid ==> Model() == old(Model()) && result == Some(data[key])
      ensures !valid ==> Model() == Timed(old(data) - {key}, old(strategy.Times()) - {key}) && result == None
    {
      result := None;
      if !valid {
        DoRemove(key);
      } else {
        result := Some(data[key]);
      }
    }

    method Clear()
      requires Valid()
      modifies this`data, strategy
      ensures Valid() && Model() == Apply(old(Model()), Cleared, strategy.expireTime)
    {
      strategy.OnClear();
      data := map[];
    }

    method Size() returns (n: nat)
      requires Valid()
      modifies this`data, strategy, clock
      ensures Valid() && old(clock.now) <= clock.now && n == |data|
      ensures Model() == Apply(old(Model()), Purged(clock.now), strategy.expireTime)
    {
      DoReplace();
      n := |data|;
    }

    method GetAllKeys() returns (result: set<K>)
      requires Valid()
      modifies this`data, strategy, clock
      ensures Valid() && old(clock.now) <= clock.now && result == data.Keys
      ensures Model() == Apply(old(Model()), Purged(clock.now), strategy.expireTime)
    {
      DoReplace();
      result := data.Keys;
    }

    /** The cache is what a history makes of it, and the clock has come at least as far. */
    ghost predicate Follows(steps: seq<Step<K, V>>)
      requires Valid()
      reads this, strategy, clock
    {
      Tells(steps, Model(), clock.now, strategy.expireTime)
    }

    /** Every call continues the history of the cache. */
    method Perform(call: Call<K, V>, ghost steps: seq<Step<K, V>>) returns (ghost more: seq<Step<K, V>>)
      requires Valid() && Follows(steps)
      modifies this`data, strategy, clock
      ensures Valid() && Follows(more) && steps <= more
    {
      ghost var before, start, limit := Model(), clock.now, strategy.expireTime;
      match call {
        case Add(key, value) =>
          var t := Add(key, value);
          more := StoredMore(steps, before, start, Stored(key, value, t), t, clock.now, limit);
        case Update(key, value) =>
          var t := Update(key, value);
          more := StoredMore(steps, before, start, Stored(key, value, t), t, clock.now, limit);
        case Get(key) =>
          var result, t := Get(key);
          more := OneMore(steps, before, start, ReadStep(strategy.onAccess, key, t, clock.now), clock.now, limit);
        case Has(key) =>
          var result := Has(key);
          more := steps;
        case Remove(key) =>
          Remove(key);
          more := OneMore(steps, before, start, Removed(key), clock.now, limit);
        case Clear =>
          Clear();
          more := OneMore(steps, before, start, Cleared, clock.now, limit);
        case Size =>
          var n := Size();
          more := OneMore(steps, before, start, Purged(clock.now), clock.now, limit);
        case Keys =>
          var keys := GetAllKeys();
          more := OneMore(steps, before, start, Purged(clock.now), clock.now, limit);
      }
    }

    /** Over every sequence of calls on a new cache, and however the clock moves between and within
        them: what is held is what was stored last under its key, with the time of its last use, and
        whatever was used less than the limit ago is held. */
    method PerformAll(calls: seq<Call<K, V>>) returns (ghost steps: seq<Step<K, V>>)
      requires Valid() && Model() == Timed(map[], map[]) && clock.now >= 0
      modifies this`data, strategy, clock
      ensures Valid() && Follows(steps)
      ensures forall k <- data :: LastUse(steps, strategy.expireTime, k) == Some((data[k], strategy.Times()[k]))
      ensures forall k: K :: var last := LastUse(steps, strategy.expireTime, k);
        last.Some? && !Elapsed(Now(steps), last.value.1, strategy.expireTime) ==> k in data
    {
      steps := [];
      for i := 0 to |calls|
        invariant Valid() && Follows(steps)
      {
        steps := Perform(calls[i], steps);
      }
      RunInStep(steps, strategy.expireTime);
      forall k: K
        ensures k in data ==> LastUse(steps, strategy.expireTime, k) == Some((data[k], strategy.Times()[k]))
        ensures var last := LastUse(steps, strategy.expireTime, k);
          last.Some? && !Elapsed(Now(steps), last.value.1, strategy.expireTime) ==> k in data
      {
        RunIsFaithful(steps, strategy.expireTime, k);
      }
    }
  }

  /** The public operations, as data. */
  datatype Call<K, V> =
    | Add(key: K, value: V) | Update(key: K, value: V) | Get(key: K) | Has(key: K)
    | Remove(key: K) | Clear | Size | Keys

  /** A history that makes these contents of a new cache, and ends no later than now. */
  ghost predicate Tells<K, V>(steps: seq<Step<K, V>>, c: Timed<K, V>, now: int, limit: int) {
    Monotone(steps) && Now(steps) <= now && c == Run(steps, limit)
  }

  /** The clock readings of a step lie between two others. */
  predicate InTime<K, V>(step: Step<K, V>, start: int, end: int) {
    match step
    case Stored(_, _, t) => start <= t <= end
    case Purged(t) => start <= t <= end
    case Read(_, t) => start <= t <= end
    case Accessed(_, t, check) => start <= t <= check <= end
    case Removed(_) => start <= end
    case Cleared => start <= end
  }

  lemma OneMore<K, V>(steps: seq<Step<K, V>>, c: Timed<K, V>, start: int, step: Step<K, V>, end: int, limit: int)
      returns (more: seq<Step<K, V>>)
    requires Tells(steps, c, start, limit) && InTime(step, start, end)
    ensures steps <= more && Tells(more, Apply(c, step, limit), end, limit)
  {
    more := steps + [step];
    assert more[..|more| - 1] == steps;
  }

  lemma StoredMore<K, V>(steps: seq<Step<K, V>>, c: Timed<K, V>, start: int, step: Step<K, V>, t: int, end: int,
                         limit: int) returns (more: seq<Step<K, V>>)
    requires Tells(steps, c, start, limit) && InTime(step, start, t) && t <= end
    ensures steps <= more
    ensures Tells(more, Apply(Apply(c, step, limit), Purged(end), limit), end, limit)
  {
    more := OneMore(steps, c, start, step, t, limit);
    more := OneMore(more, Apply(c, step, limit), t, Purged(end), end, limit);
  }

  /** Storing over an entry that was removed first is storing. */
  lemma StoredOver<K, V>(c: Timed<K, V>, key: K, val: V, t: int, limit: int) returns (after: Timed<K, V>)
    ensures after == Apply(c, Stored(key, val, t), limit)
    ensures var left := Apply(c, Removed(key), limit); after == Timed(left.data[key := val], left.times[key := t])
  {
    after := Apply(c, Stored(key, val, t), limit);
    Reinsert(c.data, key, val);
    Reinsert(c.times, key, t);
  }

  /** The step a read amounts to, given its clock readings. */
  ghost function ReadStep<K, V>(onAccess: bool, key: K, t: int, check: int): Step<K, V> {
    if onAccess then Accessed(key, t, check) else Read(key, check)
  }

  lemma Missed<K, V>(c: Timed<K, V>, key: K, step: Step<K, V>, limit: int)
    requires c.data.Keys == c.times.Keys && key !in c.data && (step.Read? || step.Accessed?) && step.key == key
    ensures Apply(c, step, limit) == c && Result(c, step, limit) == None
  {
  }

  lemma ReadOutcome<K, V>(c: Timed<K, V>, key: K, onAccess: bool, t: int, check: int, limit: int, times: map<K, int>)
    returns (after: Timed<K, V>, delivered: Option<V>)
    requires c.data.Keys == c.times.Keys && key in c.data
    requires times == if onAccess then c.times[key := t] else c.times
    ensures after == Apply(c, ReadStep(onAccess, key, t, check), limit)
    ensures delivered == Result(c, ReadStep(onAccess, key, t, check), limit)
    ensures Elapsed(check, times[key], limit) ==> after == Timed(c.data - {key}, times - {key}) && delivered == None
    ensures !Elapsed(check, times[key], limit) ==> after == Timed(c.data, times) && delivered == Some(c.data[key])
  {
    Reinsert(c.times, key, t);
    after := Apply(c, ReadStep(onAccess, key, t, check), limit);
    delivered := Result(c, ReadStep(onAccess, key, t, check), limit);
  }

  lemma DropOneMore<K, V>(c: Timed<K, V>, now: Timed<K, V>, keys: set<K>, left: set<K>, key: K)
      returns (next: Timed<K, V>)
    requires key in left && left <= keys && now == Drop(c, keys - left)
    ensures next == Drop(c, keys - (left - {key})) == Timed(now.data - {key}, now.times - {key})
  {
    next := Drop(c, keys - (left - {key}));
    assert keys - (left - {key}) == (keys - left) + {key};
    assert now.data - {key} == c.data - ((keys - left) + {key});
    assert now.times - {key} == c.times - ((keys - left) + {key});
  }

  lemma Reinsert<K, V>(m: map<K, V>, k: K, v: V)
    ensures (m - {k})[k := v] == m[k := v]
    ensures m[k := v] - {k} == m - {k}
    ensures k !in m ==> m - {k} == m
  {
  }
}
