/** DefaultStrategy and Delegate as objects: the code that runs while the event's mutex is held. */
module Delegates {
  import opened Sequences

  /** A receiver object and method; a disabled delegate has lost its receiver. The address is what a
      handle is: memory may be used again once a delegate is gone. */
  class Delegate<T(==)> {
    const address: nat
    const target: T
    var enabled: bool

    constructor (address: nat, target: T)
      ensures this.address == address && this.target == target && enabled
    {
      this.address, this.target, enabled := address, target, true;
    }

    predicate Equals(target: T)
      reads this
    {
      enabled && this.target == target
    }

    method Disable()
      modifies this
      ensures !enabled
    {
      enabled := false;
    }
  }

  function Targets<T(==)>(ds: seq<Delegate<T>>): seq<T> {
    seq(|ds|, i requires 0 <= i < |ds| => ds[i].target)
  }

  function Addresses<T(==)>(ds: seq<Delegate<T>>): seq<nat> {
    seq(|ds|, i requires 0 <= i < |ds| => ds[i].address)
  }

  lemma OthersStay<T>(ds: seq<Delegate<T>>, left: seq<Delegate<T>>, i: nat)
    requires i < |ds| && left == ds[..i] + ds[i + 1..]
    requires forall j, k | 0 <= j < k < |ds| :: ds[j].address != ds[k].address
    ensures forall d <- ds :: d in left <==> d.address != ds[i].address
  {
    forall d <- ds ensures d in left <==> d.address != ds[i].address {
      var j :| 0 <= j < |ds| && ds[j] == d;
      if j < i { assert left[j] == d; } else if j > i { assert left[j - 1] == d; }
    }
  }

  class DefaultStrategy<T(==)> {
    var delegates: seq<Delegate<T>>

    /** The registered delegates are all enabled, and no two of them share an address. */
    ghost predicate Valid()
      reads this, delegates
    {
      && (forall i, j | 0 <= i < j < |delegates| :: delegates[i].address != delegates[j].address)
      && forall d <- delegates :: d.enabled
    }

    constructor ()
      ensures Valid() && delegates == []
    {
      delegates := [];
    }

    /** The new delegate is at an address where no registered one is, chosen by the allocator; one that
        is gone may have been there. */
    method Add(target: T, address: nat) returns (handle: nat)
      requires Valid() && address !in Addresses(delegates)
      modifies this
      ensures Valid() && |delegates| == |old(delegates)| + 1 && delegates[..|old(delegates)|] == old(delegates)
      ensures handle == address
      ensures var d := delegates[|old(delegates)|]; fresh(d) && d.address == handle && d.target == target
    {
      handle := address;
      var d := new Delegate(handle, target);
      assert forall e <- delegates :: e.address in Addresses(delegates) by {
        forall i | 0 <= i < |delegates| ensures delegates[i].address in Addresses(delegates) {
          assert Addresses(delegates)[i] == delegates[i].address;
        }
      }
      delegates := delegates + [d];
    }

    method EraseAt(i: nat)
      requires Valid() && i < |delegates|
      modifies this, delegates[i]
      ensures Valid() && delegates == old(delegates)[..i] + old(delegates)[i + 1..]
      ensures !old(delegates)[i].enabled
    {
      delegates[i].Disable();
      delegates := delegates[..i] + delegates[i + 1..];
    }

    /** Removes and disables the first delegate that equals the argument, if there is one. */
    method Remove(target: T)
      requires Valid()
      modifies this, delegates
      ensures Valid()
      ensures var ds := old(delegates);
              var i := IndexOf(Targets(ds), target);
              if i == |ds| then delegates == ds else delegates == ds[..i] + ds[i + 1..] && !ds[i].enabled
    {
      for it := 0 to |delegates|
        invariant delegates == old(delegates) && Valid()
        invariant forall j | 0 <= j < it :: delegates[j].target != target
      {
        if delegates[it].Equals(target) {
          IndexIs(Targets(delegates), target, it);
          EraseAt(it);
          return;
        }
      }
      IndexIs(Targets(delegates), target, |delegates|);
    }

    /** Removes and disables the delegate with that address and no other: the one that was registered under
        the handle exactly if it is still registered, or else one that was given its address later. */
    method RemoveHandle(handle: nat)
      requires Valid()
      modifies this, delegates
      ensures Valid()
      ensures var ds := old(delegates);
              var i := IndexOf(Addresses(ds), handle);
              if i == |ds| then delegates == ds else delegates == ds[..i] + ds[i + 1..] && !ds[i].enabled
      ensures forall d <- old(delegates) :: d in delegates <==> d.address != handle
      ensures forall d <- old(delegates) :: d.enabled <==> d.address != handle
    {
      for it := 0 to |delegates|
        invariant delegates == old(delegates) && Valid()
        invariant forall j | 0 <= j < it :: delegates[j].address != handle
      {
        if delegates[it].address == handle {
          IndexIs(Addresses(delegates), handle, it);
          OthersStay(delegates, delegates[..it] + delegates[it + 1..], it);
          EraseAt(it);
          return;
        }
      }
      IndexIs(Addresses(delegates), handle, |delegates|);
    }

    method Clear()
      requires Valid()
      modifies this, delegates
      ensures Valid() && delegates == []
      ensures forall d <- old(delegates) :: !d.enabled
    {
      for it := 0 to |delegates|
        invariant delegates == old(delegates)
        invariant forall j | 0 <= j < it :: !delegates[j].enabled
      {
        delegates[it].Disable();
      }
      delegates := [];
    }
  }

  /** A run in which a handle removes somebody else: the first delegate is gone and its memory is used again. */
  method StaleHandle<T(==)>(first: T, second: T) returns (strategy: DefaultStrategy<T>, victim: Delegate<T>)
    ensures strategy.Valid() && strategy.delegates == [] && victim.target == second && !victim.enabled
  {
    strategy := new DefaultStrategy();
    var handle := strategy.Add(first, 0);
    strategy.RemoveHandle(handle);
    var other := strategy.Add(second, 0);
    victim := strategy.delegates[0];
    strategy.RemoveHandle(handle);
  }
}
