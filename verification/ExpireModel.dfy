/** What an expiring cache is: values with the time of their last use, and what is true over every
    run under a clock that does not go back. */
module ExpireModel {
  import opened Options

  datatype Timed<K, V> = Timed(data: map<K, V>, times: map<K, int>)

  /** What happens to a cache, with the clock readings it is based on.  Accessed is the read of an
      AccessExpireCache: one reading when the key is re-indexed, one when its age is checked. */
  datatype Step<K, V> =
    | Stored(key: K, value: V, t: int)
    | Purged(t: int)
    | Read(key: K, t: int)
    | Accessed(key: K, t: int, check: int)
    | Removed(key: K)
    | Cleared

  function Drop<K, V>(c: Timed<K, V>, keys: set<K>): Timed<K, V> {
    Timed(c.data - keys, c.times - keys)
  }

  predicate Elapsed(now: int, t: int, limit: int) {
    now - t >= limit
  }

  /** The keys whose age has reached the limit. */
  function Expired<K, V>(c: Timed<K, V>, now: int, limit: int): set<K> {
    set k | k in c.times && Elapsed(now, c.times[k], limit)
  }

  function Apply<K, V>(c: Timed<K, V>, s: Step<K, V>, limit: int): Timed<K, V> {
    match s
    case Stored(k, v, t) => Timed(c.data[k := v], c.times[k := t])
    case Purged(t) => Drop(c, Expired(c, t, limit))
    case Read(k, t) => if k in c.times && Elapsed(t, c.times[k], limit) then Drop(c, {k}) else c
    case Accessed(k, t, check) =>
      if k !in c.times then c
      else if Elapsed(check, t, limit) then Drop(c, {k})
      else Timed(c.data, c.times[k := t])
    case Removed(k) => Drop(c, {k})
    case Cleared => Timed(map[], map[])
  }

  /** What a read delivers. */
  function Result<K, V>(c: Timed<K, V>, s: Step<K, V>, limit: int): Option<V>
    requires s.Read? || s.Accessed?
  {
    var after := Apply(c, s, limit);
    if s.key in after.data then Some(after.data[s.key]) else None
  }

  function Run<K, V>(steps: seq<Step<K, V>>, limit: int): Timed<K, V> {
    if steps == [] then Timed(map[], map[]) else Apply(Run(steps[..|steps| - 1], limit), steps[|steps| - 1], limit)
  }

  lemma {:induction false} RunInStep<K, V>(steps: seq<Step<K, V>>, limit: int)
    ensures Run(steps, limit).data.Keys == Run(steps, limit).times.Keys
  {
    if steps != [] { RunInStep(steps[..|steps| - 1], limit); }
  }

  /** The clock at the end of a run that starts at time 0 or later. */
  function Now<K, V>(steps: seq<Step<K, V>>): int {
    if steps == [] then 0
    else match steps[|steps| - 1]
      case Stored(_, _, t) => t
      case Purged(t) => t
      case Read(_, t) => t
      case Accessed(_, _, check) => check
      case _ => Now(steps[..|steps| - 1])
  }

  /** The clock never goes back. */
  ghost predicate Monotone<K, V>(steps: seq<Step<K, V>>) {
    steps != [] ==>
      var before := steps[..|steps| - 1];
      && Monotone(before)
      && Now(before) <= Now(steps)
      && match steps[|steps| - 1]
         case Accessed(_, t, check) => Now(before) <= t <= check
         case _ => true
  }

  /** The value and time of the last use of k, told from the history: its last storing, moved on by
      every access that found it, and ended by a removal or an expired access. */
  ghost function LastUse<K, V>(steps: seq<Step<K, V>>, limit: int, k: K): Option<(V, int)> {
    if steps == [] then None
    else
      var before := steps[..|steps| - 1];
      match steps[|steps| - 1]
      case Stored(key, v, t) => if key == k then Some((v, t)) else LastUse(before, limit, k)
      case Removed(key) => if key == k then None else LastUse(before, limit, k)
      case Cleared => None
      case Accessed(key, t, check) =>
        var last := LastUse(before, limit, k);
        if key != k || last == None || k !in Run(before, limit).times then last
        else if Elapsed(check, t, limit) then None else Some((last.value.0, t))
      case _ => LastUse(before, limit, k)
  }

  /** The cache holds k exactly as the history says, except that what has expired may be gone. */
  ghost predicate Faithful<K, V>(steps: seq<Step<K, V>>, limit: int, k: K) {
    var c, last := Run(steps, limit), LastUse(steps, limit, k);
    && (k in c.data && k in c.times ==> last == Some((c.data[k], c.times[k])))
    && (last.Some? ==> last.value.1 <= Now(steps))
    && (last.Some? && !Elapsed(Now(steps), last.value.1, limit) ==> k in c.data)
  }

  lemma {:induction false} RunIsFaithful<K, V>(steps: seq<Step<K, V>>, limit: int, k: K)
    requires Monotone(steps)
    ensures Faithful(steps, limit, k)
  {
    if steps != [] {
      var before := steps[..|steps| - 1];
      RunIsFaithful(before, limit, k);
      RunInStep(before, limit);
    }
  }

  /** After a replacement the cache holds exactly the entries used less than the limit ago, with
      the values stored last. */
  lemma PurgeIsExact<K, V>(steps: seq<Step<K, V>>, limit: int, t: int, k: K)
    requires Monotone(steps + [Purged(t)])
    ensures var c, last := Run(steps + [Purged(t)], limit), LastUse(steps, limit, k);
            && (k in c.data <==> last.Some? && t - last.value.1 < limit)
            && (k in c.data ==> c.data[k] == last.value.0)
  {
    var all := steps + [Purged(t)];
    assert all[..|all| - 1] == steps;
    RunIsFaithful(steps, limit, k);
    RunIsFaithful(all, limit, k);
    RunInStep(all, limit);
    RunInStep(steps, limit);
  }

  /** A read delivers a value exactly when the key is there and was used less than the limit ago. */
  lemma ReadIsTimely<K, V>(steps: seq<Step<K, V>>, limit: int, k: K, t: int)
    requires Monotone(steps + [Read(k, t)])
    ensures var r, last := Result(Run(steps, limit), Read(k, t), limit), LastUse(steps, limit, k);
            r == if last.Some? && t - last.value.1 < limit then Some(last.value.0) else None
  {
    var all := steps + [Read(k, t)];
    assert all[..|all| - 1] == steps;
    RunIsFaithful(steps, limit, k);
    RunIsFaithful(all, limit, k);
    RunInStep(all, limit);
    RunInStep(steps, limit);
  }

  /** The read of an access-expiring cache renews the key before it looks at its age. So it delivers a
      value exactly if the key is still held and the two readings of the clock are less than the limit
      apart, however long ago the last use was; and the value is the one stored last. */
  lemma AccessRevives<K, V>(steps: seq<Step<K, V>>, limit: int, k: K, t: int, check: int)
    requires Monotone(steps + [Accessed(k, t, check)])
    ensures var r, last := Result(Run(steps, limit), Accessed(k, t, check), limit), LastUse(steps, limit, k);
            && (r.Some? <==> k in Run(steps, limit).data && check - t < limit)
            && (r.Some? ==> last.Some? && r.value == last.value.0)
            && (last.Some? && Now(steps) - last.value.1 < limit && check - t < limit ==> r.Some?)
  {
    var all := steps + [Accessed(k, t, check)];
    assert all[..|all| - 1] == steps;
    RunIsFaithful(steps, limit, k);
    RunInStep(steps, limit);
  }

  /** An entry four times as old as the limit, still held because nothing made the cache look. */
  lemma StaleIsDelivered<K, V>(k: K, v: V)
    ensures Monotone([Stored(k, v, 0)] + [Accessed(k, 100, 100)]) && Elapsed(100, 0, 25)
    ensures LastUse([Stored(k, v, 0)], 25, k) == Some((v, 0))
    ensures Result(Run([Stored(k, v, 0)], 25), Accessed(k, 100, 100), 25) == Some(v)
  {
    var first: Step<K, V> := Stored(k, v, 0);
    var steps := [first];
    var all := steps + [Accessed(k, 100, 100)];
    assert steps[..0] == [] && all[..1] == steps;
    assert Run(steps, 25) == Apply(Run(steps[..0], 25), first, 25);
    assert Now(steps[..0]) == 0 && Monotone(steps[..0]) && Monotone(steps);
    assert Now(all) == 100;
  }
}
