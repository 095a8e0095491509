/** Event delivery: AbstractEvent over DefaultStrategy and Delegate, as a state machine whose steps
    are the stretches of code between lock operations.  Threads may interleave in any order, and a
    callback may itself notify, register and unregister. */
module Events {
  import opened Options

  type Thread = nat

  /** A registration: the delegate that add() stored, numbered in the order of registration. */
  type Registration = nat

  datatype Frame =
    /** strategy.notify at delegate `next`; `running` while its callback runs under its mutex.
        History: what was called, what was passed over, and the registrations made so far when the
        delegates were copied. */
    | Notifying(snapshot: seq<Registration>, next: nat, running: bool,
                called: seq<Registration>, skipped: set<Registration>, limit: nat)
    /** strategy.remove, which holds the event's mutex; `done` once the delegate is disabled. */
    | Removing(reg: Registration, done: bool)
    /** strategy.clear, which holds the event's mutex; `rest` are still to be disabled. */
    | Clearing(rest: seq<Registration>)

  /** `disabledBy` are the delegates whose receiver is null, with the thread that disabled them;
      `removed` the registrations whose removal has returned. */
  datatype State<T> = State(
    delegates: seq<Registration>, enabled: bool, targets: seq<T>,
    owner: Option<Thread>, stacks: map<Thread, seq<Frame>>,
    disabledBy: map<Registration, Thread>, removed: set<Registration>)

  datatype Action<T> =
    | Add(t: Thread, target: T)
    | SetEnabled(t: Thread, flag: bool)
    | Notify(t: Thread, worker: Thread)
    | BeginCall(t: Thread) | SkipCall(t: Thread) | EndCall(t: Thread) | ThrowCall(t: Thread) | EndNotify(t: Thread)
    | RemoveTarget(t: Thread, target: T) | RemoveHandle(t: Thread, reg: Registration)
    | DisableRemoved(t: Thread) | EndRemove(t: Thread)
    | Clear(t: Thread) | DisableNext(t: Thread) | EndClear(t: Thread)

  // ---- Reading the state ----

  function Stack<T>(s: State<T>, t: Thread): seq<Frame> {
    if t in s.stacks then s.stacks[t] else []
  }

  /** A thread can call into the event when it is idle or inside a callback. */
  predicate Free<T>(s: State<T>, t: Thread) {
    var stack := Stack(s, t);
    stack == [] || (stack[0].Notifying? && stack[0].running)
  }

  /** The delegates whose callbacks are running in a stack of calls. */
  function Running(stack: seq<Frame>): set<Registration> {
    if stack == [] then {}
    else
      var f := stack[0];
      (if f.Notifying? && f.running && f.next < |f.snapshot| then {f.snapshot[f.next]} else {}) + Running(stack[1..])
  }

  /** The thread runs a callback of the delegate, and so holds the delegate's mutex. */
  predicate Runs<T>(s: State<T>, t: Thread, reg: Registration) {
    reg in Running(Stack(s, t))
  }

  /** The delegate's mutex is recursive: only other threads are kept out. */
  predicate CanLock<T>(s: State<T>, t: Thread, reg: Registration) {
    forall u <- s.stacks | u != t :: !Runs(s, u, reg)
  }

  function Top<T>(s: State<T>, t: Thread): Option<Frame> {
    if Stack(s, t) == [] then None else Some(Stack(s, t)[0])
  }

  /** strategy.notify between two delegates. */
  predicate AtDelegate<T>(s: State<T>, t: Thread) {
    Top(s, t).Some? && Top(s, t).value.Notifying? && !Top(s, t).value.running
    && Top(s, t).value.next < |Top(s, t).value.snapshot|
  }

  function Current<T>(s: State<T>, t: Thread): Registration
    requires AtDelegate(s, t)
  {
    Top(s, t).value.snapshot[Top(s, t).value.next]
  }

  function FirstWith<T(==)>(delegates: seq<Registration>, targets: seq<T>, target: T): Option<Registration> {
    if delegates == [] then None
    else if delegates[0] < |targets| && targets[delegates[0]] == target then Some(delegates[0])
    else FirstWith(delegates[1..], targets, target)
  }

  function Erase(delegates: seq<Registration>, reg: Registration): seq<Registration> {
    if delegates == [] then []
    else if delegates[0] == reg then delegates[1..]
    else [delegates[0]] + Erase(delegates[1..], reg)
  }

  // ---- Steps ----

  /** A step can be taken when the code has got there and the locks it needs are free. */
  predicate Enabled<T(==)>(s: State<T>, a: Action<T>) {
    match a
    case Add(t, _) => Free(s, t) && s.owner == None
    case SetEnabled(t, _) => Free(s, t) && s.owner == None
    case Notify(t, w) => Free(s, t) && s.owner == None && (w == t || Stack(s, w) == [])
    case BeginCall(t) => AtDelegate(s, t) && CanLock(s, t, Current(s, t)) && Current(s, t) !in s.disabledBy
    case SkipCall(t) => AtDelegate(s, t) && CanLock(s, t, Current(s, t)) && Current(s, t) in s.disabledBy
    case EndCall(t) => Top(s, t).Some? && Top(s, t).value.Notifying? && Top(s, t).value.running
    case ThrowCall(t) => Top(s, t).Some? && Top(s, t).value.Notifying? && Top(s, t).value.running
    case EndNotify(t) => Top(s, t).Some? && Top(s, t).value.Notifying? && !AtDelegate(s, t) && !Top(s, t).value.running
    case RemoveTarget(t, _) => Free(s, t) && s.owner == None
    case RemoveHandle(t, _) => Free(s, t) && s.owner == None
    case DisableRemoved(t) => Top(s, t).Some? && Top(s, t).value.Removing? && !Top(s, t).value.done
                              && CanLock(s, t, Top(s, t).value.reg)
    case EndRemove(t) => Top(s, t).Some? && Top(s, t).value.Removing? && Top(s, t).value.done
    case Clear(t) => Free(s, t) && s.owner == None
    case DisableNext(t) => Top(s, t).Some? && Top(s, t).value.Clearing? && Top(s, t).value.rest != []
                           && CanLock(s, t, Top(s, t).value.rest[0])
    case EndClear(t) => Top(s, t).Some? && Top(s, t).value.Clearing? && Top(s, t).value.rest == []
  }

  function Push<T>(s: State<T>, t: Thread, f: Frame): State<T> {
    s.(stacks := s.stacks[t := [f] + Stack(s, t)])
  }

  function Pop<T>(s: State<T>, t: Thread): State<T>
    requires Top(s, t).Some?
  {
    s.(stacks := s.stacks[t := Stack(s, t)[1..]])
  }

  function Replace<T>(s: State<T>, t: Thread, f: Frame): State<T>
    requires Top(s, t).Some?
  {
    s.(stacks := s.stacks[t := [f] + Stack(s, t)[1..]])
  }

  function StartRemove<T>(s: State<T>, t: Thread, reg: Option<Registration>): State<T> {
    if reg.Some? && reg.value in s.delegates then Push(s, t, Removing(reg.value, false)).(owner := Some(t)) else s
  }

  /** The state after a step; a step that cannot be taken leaves it alone. */
  function Apply<T(==)>(s: State<T>, a: Action<T>): State<T> {
    if !Enabled(s, a) then s
    else match a
      case Add(t, target) => s.(delegates := s.delegates + [|s.targets|], targets := s.targets + [target])
      case SetEnabled(t, flag) => s.(enabled := flag)
      case Notify(t, w) =>
        if s.enabled then Push(s, w, Notifying(s.delegates, 0, false, [], {}, |s.targets|)) else s
      case BeginCall(t) =>
        var f := Top(s, t).value;
        Replace(s, t, f.(running := true, called := f.called + [Current(s, t)]))
      case SkipCall(t) =>
        var f := Top(s, t).value;
        Replace(s, t, f.(next := f.next + 1, skipped := f.skipped + {Current(s, t)}))
      case EndCall(t) =>
        var f := Top(s, t).value;
        Replace(s, t, f.(running := false, next := f.next + 1))
      case ThrowCall(t) => Pop(s, t)
      case EndNotify(t) => Pop(s, t)
      case RemoveTarget(t, target) => StartRemove(s, t, FirstWith(s.delegates, s.targets, target))
      case RemoveHandle(t, reg) => StartRemove(s, t, Some(reg))
      case DisableRemoved(t) =>
        var f := Top(s, t).value;
        Replace(s, t, f.(done := true)).(disabledBy := s.disabledBy[f.reg := t])
      case EndRemove(t) =>
        var f := Top(s, t).value;
        Pop(s, t).(owner := None, delegates := Erase(s.delegates, f.reg), removed := s.removed + {f.reg})
      case Clear(t) => Push(s, t, Clearing(s.delegates)).(owner := Some(t))
      case DisableNext(t) =>
        var f := Top(s, t).value;
        Replace(s, t, f.(rest := f.rest[1..])).(disabledBy := s.disabledBy[f.rest[0] := t])
      case EndClear(t) =>
        Pop(s, t).(owner := None, delegates := [], removed := s.removed + set r | r in s.delegates)
  }

  function Init<T>(): State<T> {
    State([], true, [], None, map[], map[], {})
  }

  function Run<T(==)>(actions: seq<Action<T>>): State<T> {
    if actions == [] then Init() else Apply(Run(actions[..|actions| - 1]), actions[|actions| - 1])
  }

  // ---- What every step keeps ----

  ghost predicate Increasing(s: seq<Registration>) {
    forall i, j | 0 <= i < j < |s| :: s[i] < s[j]
  }

  /** A sequence without the members of a set. */
  function Except(s: seq<Registration>, xs: set<Registration>): seq<Registration> {
    if s == [] then []
    else Except(s[..|s| - 1], xs) + if s[|s| - 1] in xs then [] else [s[|s| - 1]]
  }

  ghost predicate IsSuffix(a: seq<Registration>, b: seq<Registration>) {
    |a| <= |b| && a == b[|b| - |a|..]
  }

  /** A notification in progress has called, in order and once each, what it has passed so far
      except the delegates it found disabled. */
  ghost predicate FrameOk<T>(s: State<T>, f: Frame) {
    match f
    case Notifying(snapshot, next, running, called, skipped, limit) =>
      && next <= |snapshot| && (running ==> next < |snapshot| && snapshot[next] !in skipped)
      && Increasing(snapshot) && (forall r <- snapshot :: r < limit) && limit <= |s.targets|
      && called == Except(snapshot[..if running then next + 1 else next], skipped)
      && skipped <= s.disabledBy.Keys
      && (forall r <- skipped :: r in snapshot[..next])
    case Removing(reg, done) => reg in s.delegates && (done ==> reg in s.disabledBy)
    case Clearing(rest) => IsSuffix(rest, s.delegates) && forall r <- s.delegates :: r in rest || r in s.disabledBy
  }

  ghost predicate FramesOk<T>(s: State<T>) {
    forall t: Thread, f: Frame :: f in Stack(s, t) ==> FrameOk(s, f)
  }

  /** Whoever removes or clears holds the event's mutex, and nobody else does. */
  ghost predicate LockOk<T>(s: State<T>) {
    && (s.owner.Some? ==> Top(s, s.owner.value).Some? && !Top(s, s.owner.value).value.Notifying?)
    && (forall t: Thread, i: nat :: i < |Stack(s, t)| ==> Stack(s, t)[i].Notifying? || (s.owner == Some(t) && i == 0))
  }

  /** The delegate was disabled by the removal in progress. */
  predicate TakesDown(f: Frame, r: Registration) {
    match f
    case Removing(reg, done) => r == reg && done
    case Clearing(rest) => r !in rest
    case Notifying(_, _, _, _, _, _) => false
  }

  /** The registered delegates are enabled, except those being removed right now. */
  ghost predicate DelegatesOk<T>(s: State<T>) {
    && Increasing(s.delegates) && (forall r <- s.delegates :: r < |s.targets|)
    && (forall r <- s.disabledBy :: r < |s.targets|)
    && s.removed <= s.disabledBy.Keys && (forall r <- s.removed :: r !in s.delegates)
    && (forall r <- s.delegates :: r in s.disabledBy ==>
          s.owner.Some? && Top(s, s.owner.value).Some? && TakesDown(Top(s, s.owner.value).value, r))
  }

  /** A delegate's callback runs on one thread at most; once disabled, on the disabling one. */
  ghost predicate Exclusive<T>(s: State<T>) {
    && (forall t: Thread, u: Thread, r: Registration :: t != u && Runs(s, t, r) ==> !Runs(s, u, r))
    && (forall t: Thread, r: Registration :: Runs(s, t, r) && r in s.disabledBy ==> t == s.disabledBy[r])
  }

  ghost predicate Invariant<T>(s: State<T>) {
    FramesOk(s) && LockOk(s) && DelegatesOk(s) && Exclusive(s)
  }

  // Steps that leave the running callbacks alone, or end one.

  lemma CanLockAll<T>(s: State<T>, t: Thread, reg: Registration)
    requires CanLock(s, t, reg)
    ensures forall u: Thread :: u != t ==> !Runs(s, u, reg)
  {
    forall u: Thread | u != t ensures !Runs(s, u, reg) {
      if u !in s.stacks { assert Stack(s, u) == []; }
    }
  }

  lemma ExclusiveShrinks<T>(s: State<T>, s': State<T>)
    requires Exclusive(s)
    requires forall t: Thread :: Running(Stack(s', t)) <= Running(Stack(s, t))
    requires s'.disabledBy == s.disabledBy
    ensures Exclusive(s')
  {
    assert forall t: Thread, r: Registration :: Runs(s', t, r) ==> Runs(s, t, r);
  }

  lemma FrameStays<T>(s: State<T>, s': State<T>, f: Frame)
    requires FrameOk(s, f)
    requires |s.targets| <= |s'.targets| && s.disabledBy.Keys <= s'.disabledBy.Keys
    requires f.Notifying? || s'.delegates == s.delegates
    ensures FrameOk(s', f)
  {
  }

  /** A new top of one stack, on what was there or on what was under the old top. */
  lemma FramesAfter<T>(s: State<T>, s': State<T>, t: Thread, top: Frame, under: seq<Frame>)
    requires FramesOk(s) && s'.stacks == s.stacks[t := [top] + under]
    requires under == Stack(s, t) || (Stack(s, t) != [] && under == Stack(s, t)[1..])
    requires |s.targets| <= |s'.targets| && s.disabledBy.Keys <= s'.disabledBy.Keys && s'.delegates == s.delegates
    requires FrameOk(s', top)
    ensures FramesOk(s')
  {
    forall u: Thread, f: Frame | f in Stack(s', u) ensures FrameOk(s', f) {
      if u == t && f == top {
      } else {
        assert f in Stack(s, u);
        FrameStays(s, s', f);
      }
    }
  }

  lemma TopOk<T>(s: State<T>, t: Thread)
    requires FramesOk(s) && Top(s, t).Some?
    ensures FrameOk(s, Top(s, t).value)
  {
    assert Stack(s, t)[0] in Stack(s, t);
  }

  lemma AddKeeps<T>(s: State<T>, t: Thread, target: T)
    requires Invariant(s) && Enabled(s, Add(t, target))
    ensures Invariant(Apply(s, Add(t, target)))
  {
    var s' := Apply(s, Add(t, target));
    assert forall u: Thread :: Stack(s', u) == Stack(s, u);
    forall u: Thread, f: Frame | f in Stack(s', u) ensures FrameOk(s', f) {
      var i :| 0 <= i < |Stack(s, u)| && Stack(s, u)[i] == f;
      FrameStays(s, s', f);
    }
    assert forall i | 0 <= i < |s.delegates| :: s.delegates[i] in s.delegates;
    ExclusiveShrinks(s, s');
  }

  lemma SetEnabledKeeps<T>(s: State<T>, t: Thread, flag: bool)
    requires Invariant(s) && Enabled(s, SetEnabled(t, flag))
    ensures Invariant(Apply(s, SetEnabled(t, flag)))
  {
    var s' := Apply(s, SetEnabled(t, flag));
    assert forall u: Thread :: Stack(s', u) == Stack(s, u);
    ExclusiveShrinks(s, s');
    forall u: Thread, f: Frame | f in Stack(s', u) ensures FrameOk(s', f) { FrameStays(s, s', f); }
  }

  lemma NotifyKeeps<T>(s: State<T>, t: Thread, w: Thread)
    requires Invariant(s) && Enabled(s, Notify(t, w))
    ensures Invariant(Apply(s, Notify(t, w)))
  {
    if s.enabled {
      var s' := Apply(s, Notify(t, w));
      var f := Notifying(s.delegates, 0, false, [], {}, |s.targets|);
      FramesAfter(s, s', w, f, Stack(s, w));
      assert Running([f] + Stack(s, w)) == Running(Stack(s, w)) by { assert ([f] + Stack(s, w))[1..] == Stack(s, w); }
      ExclusiveShrinks(s, s');
    }
  }

  /** Moving a notification on touches neither the lock nor the list. */
  lemma ProgressKeeps<T>(s: State<T>, s': State<T>, t: Thread, f: Frame)
    requires Invariant(s) && Top(s, t).Some? && Top(s, t).value.Notifying? && f.Notifying?
    requires s' == Replace(s, t, f) && FrameOk(s', f)
    ensures FramesOk(s') && LockOk(s') && DelegatesOk(s')
    ensures forall u: Thread :: u != t ==> Stack(s', u) == Stack(s, u)
    ensures Running(Stack(s', t)) == Running([f]) + Running(Stack(s, t)[1..])
    ensures Running(Stack(s, t)) == Running([Top(s, t).value]) + Running(Stack(s, t)[1..])
  {
    var rest := Stack(s, t)[1..];
    FramesAfter(s, s', t, f, rest);
    assert ([f] + rest)[1..] == rest && [f][1..] == [] && [Top(s, t).value][1..] == [];
    forall u: Thread, i: nat | i < |Stack(s', u)|
      ensures Stack(s', u)[i].Notifying? || (s'.owner == Some(u) && i == 0)
    {
      assert i < |Stack(s, u)| && ((u == t && i == 0) || Stack(s', u)[i] == Stack(s, u)[i]);
    }
  }

  lemma BeginCallKeeps<T>(s: State<T>, t: Thread)
    requires Invariant(s) && Enabled(s, BeginCall(t))
    ensures Invariant(Apply(s, BeginCall(t)))
  {
    var s' := Apply(s, BeginCall(t));
    var f, reg := Top(s, t).value, Current(s, t);
    TopOk(s, t);
    assert f.snapshot[..f.next + 1] == f.snapshot[..f.next] + [reg] && reg !in f.skipped;
    ProgressKeeps(s, s', t, f.(running := true, called := f.called + [reg]));
    CanLockAll(s, t, reg);
    ExclusiveGrows(s, s', t, reg);
  }

  /** One more callback, of a delegate that nobody else runs and that is enabled. */
  lemma ExclusiveGrows<T>(s: State<T>, s': State<T>, t: Thread, reg: Registration)
    requires Exclusive(s) && reg !in s.disabledBy && s'.disabledBy == s.disabledBy
    requires forall u: Thread :: u != t ==> !Runs(s, u, reg)
    requires forall u: Thread :: u != t ==> Stack(s', u) == Stack(s, u)
    requires Running(Stack(s', t)) <= {reg} + Running(Stack(s, t))
    ensures Exclusive(s')
  {
    assert forall u: Thread, r: Registration :: Runs(s', u, r) ==> Runs(s, u, r) || (u == t && r == reg);
  }

  lemma SkipCallKeeps<T>(s: State<T>, t: Thread)
    requires Invariant(s) && Enabled(s, SkipCall(t))
    ensures Invariant(Apply(s, SkipCall(t)))
  {
    var s' := Apply(s, SkipCall(t));
    var f, reg := Top(s, t).value, Current(s, t);
    TopOk(s, t);
    SkipExtends(f.snapshot, f.next, f.skipped);
    ProgressKeeps(s, s', t, f.(next := f.next + 1, skipped := f.skipped + {reg}));
    ExclusiveShrinks(s, s');
  }

  lemma SkipExtends(snapshot: seq<Registration>, next: nat, skipped: set<Registration>)
    requires next < |snapshot| && Increasing(snapshot) && forall r <- skipped :: r in snapshot[..next]
    ensures Except(snapshot[..next + 1], skipped + {snapshot[next]}) == Except(snapshot[..next], skipped)
    ensures snapshot[next] !in skipped
  {
    var reg := snapshot[next];
    assert snapshot[..next + 1][..next] == snapshot[..next];
    assert reg !in snapshot[..next];
    ExceptMore(snapshot[..next], skipped, reg);
  }

  lemma {:induction false} ExceptMore(s: seq<Registration>, xs: set<Registration>, r: Registration)
    requires r !in s
    ensures Except(s, xs + {r}) == Except(s, xs)
  {
    if s != [] { ExceptMore(s[..|s| - 1], xs, r); }
  }

  lemma EndCallKeeps<T>(s: State<T>, t: Thread)
    requires Invariant(s) && Enabled(s, EndCall(t))
    ensures Invariant(Apply(s, EndCall(t)))
  {
    var s' := Apply(s, EndCall(t));
    var f := Top(s, t).value;
    TopOk(s, t);
    assert forall r <- f.skipped :: r in f.snapshot[..f.next + 1];
    ProgressKeeps(s, s', t, f.(running := false, next := f.next + 1));
    ExclusiveShrinks(s, s');
  }

  lemma PopKeeps<T>(s: State<T>, t: Thread)
    requires Invariant(s) && Top(s, t).Some? && Top(s, t).value.Notifying?
    ensures Invariant(Pop(s, t))
  {
    var s' := Pop(s, t);
    forall u: Thread, f: Frame | f in Stack(s', u) ensures FrameOk(s', f) {
      assert f in Stack(s, u);
      FrameStays(s, s', f);
    }
    ExclusiveShrinks(s, s');
  }

  // Steps that remove.

  lemma IncreasingTail(s: seq<Registration>)
    requires s != [] && Increasing(s)
    ensures Increasing(s[1..]) && forall r <- s[1..] :: s[0] < r
  {
  }

  lemma IncreasingCons(x: Registration, s: seq<Registration>)
    requires Increasing(s) && forall r <- s :: x < r
    ensures Increasing([x] + s)
  {
    assert forall i | 0 <= i < |s| :: s[i] in s;
  }

  lemma {:induction false} EraseKeeps(s: seq<Registration>, reg: Registration)
    requires Increasing(s)
    ensures Increasing(Erase(s, reg)) && reg !in Erase(s, reg)
    ensures (forall r <- Erase(s, reg) :: r in s) && (forall r <- s | r != reg :: r in Erase(s, reg))
  {
    if s != [] {
      IncreasingTail(s);
      if s[0] != reg {
        EraseKeeps(s[1..], reg);
        IncreasingCons(s[0], Erase(s[1..], reg));
      }
    }
  }

  lemma SuffixStep(rest: seq<Registration>, s: seq<Registration>)
    requires rest != [] && IsSuffix(rest, s) && Increasing(s)
    ensures IsSuffix(rest[1..], s) && rest[0] !in rest[1..]
    ensures forall r <- rest :: r in s && (r == rest[0] || r in rest[1..])
  {
    assert forall i | 0 <= i < |rest| :: rest[i] == s[|s| - |rest| + i];
  }

  lemma StartRemoveKeeps<T>(s: State<T>, t: Thread, reg: Option<Registration>)
    requires Invariant(s) && Free(s, t) && s.owner == None
    ensures Invariant(StartRemove(s, t, reg))
  {
    if reg.Some? && reg.value in s.delegates {
      AcquireKeeps(s, StartRemove(s, t, reg), t, Removing(reg.value, false));
    }
  }

  /** Taking the event's mutex for a removal or a clearing. */
  lemma AcquireKeeps<T>(s: State<T>, s': State<T>, t: Thread, f: Frame)
    requires Invariant(s) && Free(s, t) && s.owner == None && !f.Notifying?
    requires s' == Push(s, t, f).(owner := Some(t)) && FrameOk(s', f)
    ensures Invariant(s')
  {
    FramesAfter(s, s', t, f, Stack(s, t));
    assert ([f] + Stack(s, t))[1..] == Stack(s, t);
    ExclusiveShrinks(s, s');
  }

  lemma ClearKeeps<T>(s: State<T>, t: Thread)
    requires Invariant(s) && Enabled(s, Clear(t))
    ensures Invariant(Apply(s, Clear(t)))
  {
    assert s.delegates[|s.delegates| - |s.delegates|..] == s.delegates;
    AcquireKeeps(s, Apply(s, Clear(t)), t, Clearing(s.delegates));
  }

  /** Disabling a delegate whose mutex nobody else holds. */
  lemma DisabledExclusive<T>(s: State<T>, s': State<T>, t: Thread, reg: Registration)
    requires Exclusive(s) && CanLock(s, t, reg)
    requires forall u: Thread :: Running(Stack(s', u)) <= Running(Stack(s, u))
    requires s'.disabledBy == s.disabledBy[reg := t]
    ensures Exclusive(s')
  {
    CanLockAll(s, t, reg);
    assert forall u: Thread, r: Registration :: Runs(s', u, r) ==> Runs(s, u, r);
  }

  /** A removal or a clearing disables one more of the delegates it takes down. */
  lemma DisableKeeps<T>(s: State<T>, s': State<T>, t: Thread, f: Frame, reg: Registration)
    requires Invariant(s) && Top(s, t).Some? && !Top(s, t).value.Notifying? && !f.Notifying?
    requires reg in s.delegates && CanLock(s, t, reg)
    requires s' == Replace(s, t, f).(disabledBy := s.disabledBy[reg := t]) && FrameOk(s', f)
    requires TakesDown(f, reg) && forall r <- s.delegates | TakesDown(Top(s, t).value, r) :: TakesDown(f, r)
    ensures Invariant(s')
  {
    var under := Stack(s, t)[1..];
    assert s.owner == Some(t) by { assert !Stack(s, t)[0].Notifying?; }
    FramesAfter(s, s', t, f, under);
    assert ([f] + under)[1..] == under;
    DisabledExclusive(s, s', t, reg);
  }

  lemma DisableRemovedKeeps<T>(s: State<T>, t: Thread)
    requires Invariant(s) && Enabled(s, DisableRemoved(t))
    ensures Invariant(Apply(s, DisableRemoved(t)))
  {
    var f := Top(s, t).value;
    TopOk(s, t);
    DisableKeeps(s, Apply(s, DisableRemoved(t)), t, f.(done := true), f.reg);
  }

  lemma DisableNextKeeps<T>(s: State<T>, t: Thread)
    requires Invariant(s) && Enabled(s, DisableNext(t))
    ensures Invariant(Apply(s, DisableNext(t)))
  {
    var f := Top(s, t).value;
    TopOk(s, t);
    SuffixStep(f.rest, s.delegates);
    assert f.rest[0] in f.rest;
    DisableKeeps(s, Apply(s, DisableNext(t)), t, f.(rest := f.rest[1..]), f.rest[0]);
  }

  /** The removal returns: the list shrinks and the event's mutex is free again. */
  lemma ReleaseKeeps<T>(s: State<T>, s': State<T>, t: Thread)
    requires Invariant(s) && s.owner == Some(t) && Top(s, t).Some?
    requires s' == Pop(s, t).(owner := None, delegates := s'.delegates, removed := s'.removed)
    requires Increasing(s'.delegates)
    requires forall r <- s'.delegates :: r in s.delegates && r !in s.disabledBy
    requires s'.removed <= s.disabledBy.Keys
    ensures Invariant(s')
  {
    assert forall u: Thread, i: nat ::
             i < |Stack(s', u)| ==> Stack(s', u)[i] == Stack(s, u)[if u == t then i + 1 else i];
    forall u: Thread, f: Frame | f in Stack(s', u) ensures FrameOk(s', f) {
      var i :| 0 <= i < |Stack(s', u)| && Stack(s', u)[i] == f;
      assert f == Stack(s, u)[if u == t then i + 1 else i] && f in Stack(s, u);
      FrameStays(s, s', f);
    }
    ExclusiveShrinks(s, s');
  }

  lemma EndRemoveKeeps<T>(s: State<T>, t: Thread)
    requires Invariant(s) && Enabled(s, EndRemove(t))
    ensures Invariant(Apply(s, EndRemove(t)))
  {
    var f := Top(s, t).value;
    TopOk(s, t);
    assert s.owner == Some(t) by { assert !Stack(s, t)[0].Notifying?; }
    EraseKeeps(s.delegates, f.reg);
    ReleaseKeeps(s, Apply(s, EndRemove(t)), t);
  }

  lemma EndClearKeeps<T>(s: State<T>, t: Thread)
    requires Invariant(s) && Enabled(s, EndClear(t))
    ensures Invariant(Apply(s, EndClear(t)))
  {
    TopOk(s, t);
    assert s.owner == Some(t) by { assert !Stack(s, t)[0].Notifying?; }
    ReleaseKeeps(s, Apply(s, EndClear(t)), t);
  }

  lemma StepKeeps<T>(s: State<T>, a: Action<T>)
    requires Invariant(s)
    ensures Invariant(Apply(s, a))
  {
    if Enabled(s, a) {
      match a
      case Add(t, target) => AddKeeps(s, t, target);
      case SetEnabled(t, flag) => SetEnabledKeeps(s, t, flag);
      case Notify(t, w) => NotifyKeeps(s, t, w);
      case BeginCall(t) => BeginCallKeeps(s, t);
      case SkipCall(t) => SkipCallKeeps(s, t);
      case EndCall(t) => EndCallKeeps(s, t);
      case ThrowCall(t) => PopKeeps(s, t);
      case EndNotify(t) => PopKeeps(s, t);
      case RemoveTarget(t, target) => StartRemoveKeeps(s, t, FirstWith(s.delegates, s.targets, target));
      case RemoveHandle(t, reg) => StartRemoveKeeps(s, t, Some(reg));
      case DisableRemoved(t) => DisableRemovedKeeps(s, t);
      case EndRemove(t) => EndRemoveKeeps(s, t);
      case Clear(t) => ClearKeeps(s, t);
      case DisableNext(t) => DisableNextKeeps(s, t);
      case EndClear(t) => EndClearKeeps(s, t);
    }
  }

  lemma {:induction false} RunInvariant<T>(actions: seq<Action<T>>)
    ensures Invariant(Run(actions))
  {
    if actions != [] {
      RunInvariant(actions[..|actions| - 1]);
      StepKeeps(Run(actions[..|actions| - 1]), actions[|actions| - 1]);
    }
  }

  // ---- Safety over every interleaving ----

  /** Once removed, always removed; and the thread that disabled a removed delegate stays the same. */
  lemma RemovalLasts<T>(s: State<T>, a: Action<T>)
    requires Invariant(s)
    ensures s.removed <= Apply(s, a).removed && s.removed <= Apply(s, a).disabledBy.Keys
    ensures forall r <- s.removed :: Apply(s, a).disabledBy[r] == s.disabledBy[r]
  {
    if Enabled(s, a) {
      match a
      case DisableRemoved(t) => TopOk(s, t);
      case DisableNext(t) =>
        TopOk(s, t);
        var rest := Top(s, t).value.rest;
        assert rest[0] in rest && forall r <- rest :: r in s.delegates;
      case _ =>
    }
  }

  lemma RunLast<T>(all: seq<Action<T>>, most: seq<Action<T>>, last: Action<T>)
    requires all == most + [last]
    ensures Run(all) == Apply(Run(most), last)
  {
    assert all[..|all| - 1] == most;
  }

  lemma RemovedAreDisabled<T>(actions: seq<Action<T>>)
    ensures Run(actions).removed <= Run(actions).disabledBy.Keys
  {
    RunInvariant(actions);
  }

  lemma RemovalLastsOneMore<T>(most: seq<Action<T>>, all: seq<Action<T>>, last: Action<T>)
    requires all == most + [last]
    ensures var s, s' := Run(most), Run(all);
            && s.removed <= s'.removed && s.removed <= s'.disabledBy.Keys && s.removed <= s.disabledBy.Keys
            && forall r <- s.removed :: s'.disabledBy[r] == s.disabledBy[r]
  {
    RunInvariant(most);
    RunLast(all, most, last);
    RemovalLasts(Run(most), last);
  }

  lemma {:induction false} RemovalLastsOverRun<T>(actions: seq<Action<T>>, more: seq<Action<T>>)
    ensures var s, s' := Run(actions), Run(actions + more);
            && s.removed <= s'.removed && s.removed <= s'.disabledBy.Keys && s.removed <= s.disabledBy.Keys
            && forall r <- s.removed :: s'.disabledBy[r] == s.disabledBy[r]
    decreases |more|
  {
    if more == [] {
      assert actions + more == actions;
      RemovedAreDisabled(actions);
    } else {
      var most, last := more[..|more| - 1], more[|more| - 1];
      RemovalLastsOverRun(actions, most);
      assert actions + more == (actions + most) + [last];
      RemovalLastsOneMore(actions + most, actions + more, last);
    }
  }

  /** Once the removal of a registration has returned, no callback on it starts on any thread, not
      even from a notification that was under way, and on no thread but the remover's own is one
      still running. */
  lemma NoCallAfterRemoval<T>(actions: seq<Action<T>>, more: seq<Action<T>>, reg: Registration)
    requires reg in Run(actions).removed
    ensures var s := Run(actions + more);
            && (forall t: Thread :: AtDelegate(s, t) && Current(s, t) == reg ==> !Enabled(s, BeginCall(t)))
            && reg in Run(actions).disabledBy
            && (forall t: Thread :: Runs(s, t, reg) ==> t == Run(actions).disabledBy[reg])
  {
    RunInvariant(actions);
    RunInvariant(actions + more);
    RemovalLastsOverRun(actions, more);
  }

  /** No callback of a delegate runs on two threads at a time. */
  lemma CallbacksExclude<T>(actions: seq<Action<T>>, t: Thread, u: Thread, reg: Registration)
    requires t != u && Runs(Run(actions), t, reg)
    ensures !Runs(Run(actions), u, reg)
  {
    RunInvariant(actions);
  }

  /** A notification that runs to its end has called, in the order of registration and once each,
      exactly the delegates it copied except those it found disabled; so every copied delegate that
      is still enabled was called, and none that was registered after the copy. */
  lemma NotifyIsExact<T>(actions: seq<Action<T>>, t: Thread)
    requires Enabled(Run(actions), EndNotify(t))
    ensures var s := Run(actions);
            var f := Top(s, t).value;
            && f.called == Except(f.snapshot, f.skipped)
            && f.skipped <= s.disabledBy.Keys
            && Increasing(f.called)
            && (forall r <- f.snapshot | r !in s.disabledBy :: r in f.called)
            && (forall r <- f.called :: r in f.snapshot && r < f.limit)
  {
    var s := Run(actions);
    RunInvariant(actions);
    TopOk(s, t);
    var f := Top(s, t).value;
    assert f.snapshot[..|f.snapshot|] == f.snapshot;
    ExceptMembers(f.snapshot, f.skipped);
  }

  lemma IncreasingFront(s: seq<Registration>, last: Registration)
    requires Increasing(s + [last])
    ensures Increasing(s) && forall r <- s :: r < last
  {
    var t := s + [last];
    assert forall i | 0 <= i < |s| :: t[i] == s[i];
    assert t[|s|] == last;
  }

  lemma IncreasingSnoc(s: seq<Registration>, x: Registration)
    requires Increasing(s) && forall r <- s :: r < x
    ensures Increasing(s + [x])
  {
    assert forall i | 0 <= i < |s| :: s[i] in s;
  }

  lemma {:induction false} ExceptMembers(s: seq<Registration>, xs: set<Registration>)
    requires Increasing(s)
    ensures Increasing(Except(s, xs))
    ensures (forall r <- Except(s, xs) :: r in s) && (forall r <- s | r !in xs :: r in Except(s, xs))
  {
    if s != [] {
      var front, last := s[..|s| - 1], s[|s| - 1];
      assert s == front + [last];
      IncreasingFront(front, last);
      ExceptMembers(front, xs);
      IncreasingSnoc(Except(front, xs), last);
      assert forall r <- s :: r == last || r in front;
    }
  }

  /** What was copied is what was registered, all of it enabled. */
  lemma SnapshotIsLive<T>(actions: seq<Action<T>>, t: Thread, w: Thread)
    requires Enabled(Run(actions), Notify(t, w)) && Run(actions).enabled
    ensures var s, s' := Run(actions), Run(actions + [Notify(t, w)]);
            && Top(s', w) == Some(Notifying(s.delegates, 0, false, [], {}, |s.targets|))
            && forall r <- s.delegates :: r !in s.disabledBy
  {
    RunInvariant(actions);
    RunLast(actions + [Notify(t, w)], actions, Notify(t, w));
  }

  // ---- Which registration a removal takes down ----

  /** The i-th delegate is the first that equals the argument of the removal. */
  ghost predicate FirstEqual<T>(s: State<T>, target: T, i: nat) {
    && i < |s.delegates| && s.delegates[i] < |s.targets| && s.targets[s.delegates[i]] == target
    && forall j | 0 <= j < i :: s.delegates[j] < |s.targets| && s.targets[s.delegates[j]] != target
  }

  ghost predicate NoneEqual<T>(s: State<T>, target: T) {
    forall r <- s.delegates :: r < |s.targets| && s.targets[r] != target
  }

  lemma {:induction false} FirstWithIs<T>(delegates: seq<Registration>, targets: seq<T>, target: T, i: nat)
    requires i <= |delegates| && forall j | 0 <= j < i :: delegates[j] < |targets| && targets[delegates[j]] != target
    requires i < |delegates| ==> delegates[i] < |targets| && targets[delegates[i]] == target
    ensures FirstWith(delegates, targets, target) == if i < |delegates| then Some(delegates[i]) else None
  {
    if i > 0 {
      assert forall j | 0 <= j < i - 1 :: delegates[1..][j] == delegates[j + 1];
      FirstWithIs(delegates[1..], targets, target, i - 1);
    }
  }

  lemma StartsAtFirst<T>(s: State<T>, t: Thread, target: T, i: nat)
    requires Enabled(s, RemoveTarget(t, target)) && FirstEqual(s, target, i)
    ensures Apply(s, RemoveTarget(t, target)) == Push(s, t, Removing(s.delegates[i], false)).(owner := Some(t))
  {
    FirstWithIs(s.delegates, s.targets, target, i);
  }

  lemma NothingStarts<T>(s: State<T>, t: Thread, target: T)
    requires NoneEqual(s, target)
    ensures Apply(s, RemoveTarget(t, target)) == s
  {
    forall j | 0 <= j < |s.delegates|
      ensures s.delegates[j] < |s.targets| && s.targets[s.delegates[j]] != target
    {
      assert s.delegates[j] in s.delegates;
    }
    FirstWithIs(s.delegates, s.targets, target, |s.delegates|);
  }

  /** The call for a target starts to take down the first delegate that equals it; without one nothing happens. */
  lemma RemovalStarts<T>(actions: seq<Action<T>>, t: Thread, target: T)
    requires Enabled(Run(actions), RemoveTarget(t, target))
    ensures var s, s' := Run(actions), Run(actions + [RemoveTarget(t, target)]);
            && (forall i: nat | FirstEqual(s, target, i) :: Top(s', t) == Some(Removing(s.delegates[i], false)))
            && (NoneEqual(s, target) ==> s' == s)
  {
    var s := Run(actions);
    RunLast(actions + [RemoveTarget(t, target)], actions, RemoveTarget(t, target));
    forall i: nat | FirstEqual(s, target, i)
      ensures Top(Apply(s, RemoveTarget(t, target)), t) == Some(Removing(s.delegates[i], false))
    {
      StartsAtFirst(s, t, target, i);
    }
    if NoneEqual(s, target) { NothingStarts(s, t, target); }
  }

  /** What a thread that removes or clears finds unchanged when it goes on. */
  ghost predicate Untouched<T>(s: State<T>, t: Thread, delegates: seq<Registration>, removed: set<Registration>) {
    s.owner == Some(t) && s.delegates == delegates && s.removed == removed
  }

  ghost predicate StillRemoving<T>(s: State<T>, t: Thread, reg: Registration) {
    Top(s, t).Some? && Top(s, t).value.Removing? && Top(s, t).value.reg == reg
  }

  /** Nobody else touches the list meanwhile, nor the remover's stack. */
  lemma UntouchedStep<T>(s: State<T>, a: Action<T>, t: Thread, delegates: seq<Registration>, removed: set<Registration>)
    requires Invariant(s) && Untouched(s, t, delegates, removed) && a != EndRemove(t) && a != EndClear(t)
    ensures Untouched(Apply(s, a), t, delegates, removed)
    ensures forall reg | StillRemoving(s, t, reg) :: StillRemoving(Apply(s, a), t, reg)
  {
    assert forall u: Thread :: u != t && Stack(s, u) != [] ==> Stack(s, u)[0].Notifying?;
  }

  lemma {:induction false} UntouchedRun<T>(actions: seq<Action<T>>, more: seq<Action<T>>, t: Thread,
                                           delegates: seq<Registration>, removed: set<Registration>)
    requires Untouched(Run(actions), t, delegates, removed) && EndRemove(t) !in more && EndClear(t) !in more
    ensures Untouched(Run(actions + more), t, delegates, removed)
    ensures forall reg | StillRemoving(Run(actions), t, reg) :: StillRemoving(Run(actions + more), t, reg)
    decreases |more|
  {
    if more == [] {
      assert actions + more == actions;
    } else {
      var most, last := more[..|more| - 1], more[|more| - 1];
      UntouchedRun(actions, most, t, delegates, removed);
      RunInvariant(actions + most);
      UntouchedStep(Run(actions + most), last, t, delegates, removed);
      assert actions + more == (actions + most) + [last];
      RunLast(actions + more, actions + most, last);
    }
  }

  lemma WithoutAt(s: seq<Registration>, i: nat)
    requires 0 < i < |s|
    ensures s[..i] + s[i + 1..] == [s[0]] + (s[1..][..i - 1] + s[1..][i..])
  {
  }

  lemma {:induction false} EraseAt(s: seq<Registration>, i: nat)
    requires Increasing(s) && i < |s|
    ensures Erase(s, s[i]) == s[..i] + s[i + 1..]
  {
    if i == 0 {
      assert s[..0] + s[1..] == s[1..];
    } else {
      var rest := s[1..];
      IncreasingTail(s);
      EraseAt(rest, i - 1);
      WithoutAt(s, i);
      assert s[i] == rest[i - 1] && s[0] != s[i];
    }
  }

  /** A removal that took the event's mutex in this state and now returns. */
  lemma RemovalTakes<T>(actions: seq<Action<T>>, a: Action<T>, more: seq<Action<T>>, t: Thread, i: nat)
    requires i < |Run(actions).delegates|
    requires Apply(Run(actions), a) ==
      Push(Run(actions), t, Removing(Run(actions).delegates[i], false)).(owner := Some(t))
    requires EndRemove(t) !in more && EndClear(t) !in more
    requires Enabled(Run(actions + [a] + more), EndRemove(t))
    ensures var s, s' := Run(actions), Run(actions + [a] + more + [EndRemove(t)]);
            s'.removed == s.removed + {s.delegates[i]} && s'.delegates == s.delegates[..i] + s.delegates[i + 1..]
  {
    var s := Run(actions);
    RunInvariant(actions);
    RunLast(actions + [a], actions, a);
    assert StillRemoving(Run(actions + [a]), t, s.delegates[i]);
    UntouchedRun(actions + [a], more, t, s.delegates, s.removed);
    EraseAt(s.delegates, i);
    RunLast(actions + [a] + more + [EndRemove(t)], actions + [a] + more, EndRemove(t));
  }

  /** Once the call for a target has returned, whatever the other threads did meanwhile, the first registration
      of that target is removed, and only that one: the list is the one before without it. */
  lemma RemovalTakesFirst<T>(actions: seq<Action<T>>, more: seq<Action<T>>, t: Thread, target: T, i: nat)
    requires Enabled(Run(actions), RemoveTarget(t, target)) && FirstEqual(Run(actions), target, i)
    requires EndRemove(t) !in more && EndClear(t) !in more
    requires Enabled(Run(actions + [RemoveTarget(t, target)] + more), EndRemove(t))
    ensures var s, s' := Run(actions), Run(actions + [RemoveTarget(t, target)] + more + [EndRemove(t)]);
            s'.removed == s.removed + {s.delegates[i]} && s'.delegates == s.delegates[..i] + s.delegates[i + 1..]
  {
    StartsAtFirst(Run(actions), t, target, i);
    RemovalTakes(actions, RemoveTarget(t, target), more, t, i);
  }

  /** The call for a handle takes down that registration. */
  lemma HandleRemovalTakes<T>(actions: seq<Action<T>>, more: seq<Action<T>>, t: Thread, i: nat)
    requires i < |Run(actions).delegates|
    requires Enabled(Run(actions), RemoveHandle(t, Run(actions).delegates[i]))
    requires EndRemove(t) !in more && EndClear(t) !in more
    requires Enabled(Run(actions + [RemoveHandle(t, Run(actions).delegates[i])] + more), EndRemove(t))
    ensures var s := Run(actions);
            var s' := Run(actions + [RemoveHandle(t, s.delegates[i])] + more + [EndRemove(t)]);
            s'.removed == s.removed + {s.delegates[i]} && s'.delegates == s.delegates[..i] + s.delegates[i + 1..]
  {
    RemovalTakes(actions, RemoveHandle(t, Run(actions).delegates[i]), more, t, i);
  }

  /** A clearing takes down everything that was registered when it started. */
  lemma ClearTakesAll<T>(actions: seq<Action<T>>, more: seq<Action<T>>, t: Thread)
    requires Enabled(Run(actions), Clear(t)) && EndRemove(t) !in more && EndClear(t) !in more
    requires Enabled(Run(actions + [Clear(t)] + more), EndClear(t))
    ensures var s, s' := Run(actions), Run(actions + [Clear(t)] + more + [EndClear(t)]);
            s'.removed == s.removed + (set r | r in s.delegates) && s'.delegates == []
  {
    var s := Run(actions);
    RunLast(actions + [Clear(t)], actions, Clear(t));
    UntouchedRun(actions + [Clear(t)], more, t, s.delegates, s.removed);
    RunLast(actions + [Clear(t)] + more + [EndClear(t)], actions + [Clear(t)] + more, EndClear(t));
  }

  // ---- Registrations ----

  /** Whether the event is enabled, told from the history: the flag last set by a call that was possible. */
  function LastFlag<T(==)>(actions: seq<Action<T>>): bool {
    if actions == [] then true
    else
      var before, a := actions[..|actions| - 1], actions[|actions| - 1];
      if a.SetEnabled? && Enabled(Run(before), a) then a.flag else LastFlag(before)
  }

  lemma StepAndFlag<T>(s: State<T>, a: Action<T>)
    ensures Apply(s, a).enabled == if a.SetEnabled? && Enabled(s, a) then a.flag else s.enabled
    ensures s.targets <= Apply(s, a).targets
  {
  }

  lemma {:induction false} EnabledIsLastFlag<T>(actions: seq<Action<T>>)
    ensures Run(actions).enabled == LastFlag(actions)
  {
    if actions != [] {
      EnabledIsLastFlag(actions[..|actions| - 1]);
      StepAndFlag(Run(actions[..|actions| - 1]), actions[|actions| - 1]);
    }
  }

  lemma {:induction false} TargetsStay<T>(actions: seq<Action<T>>, more: seq<Action<T>>)
    ensures Run(actions).targets <= Run(actions + more).targets
    decreases |more|
  {
    if more == [] {
      assert actions + more == actions;
    } else {
      var most, last := more[..|more| - 1], more[|more| - 1];
      TargetsStay(actions, most);
      assert actions + more == (actions + most) + [last];
      RunLast(actions + more, actions + most, last);
      StepAndFlag(Run(actions + most), last);
    }
  }

  /** A registration is new and comes last, with the target that was given; what it refers to never changes. */
  lemma AddedTargetStays<T>(actions: seq<Action<T>>, t: Thread, target: T, more: seq<Action<T>>)
    requires Enabled(Run(actions), Add(t, target))
    ensures var s, s' := Run(actions), Run(actions + [Add(t, target)]);
            var r := |s.targets|;
            && s'.delegates == s.delegates + [r] && r !in s.delegates
            && s.targets + [target] <= Run(actions + [Add(t, target)] + more).targets
  {
    RunInvariant(actions);
    RunLast(actions + [Add(t, target)], actions, Add(t, target));
    TargetsStay(actions + [Add(t, target)], more);
  }

  /** A disabled event calls nobody. */
  lemma DisabledIsSilent<T>(actions: seq<Action<T>>, t: Thread, w: Thread)
    requires !Run(actions).enabled
    ensures Run(actions + [Notify(t, w)]) == Run(actions)
  {
    RunLast(actions + [Notify(t, w)], actions, Notify(t, w));
  }

  // ---- Who waits for whom ----

  /** The delegate whose mutex the thread has to take next. */
  ghost predicate Needs<T>(s: State<T>, t: Thread, reg: Registration) {
    Top(s, t).Some? &&
    match Top(s, t).value
    case Notifying(snapshot, next, running, _, _, _) => !running && next < |snapshot| && snapshot[next] == reg
    case Removing(r, done) => !done && r == reg
    case Clearing(rest) => rest != [] && rest[0] == reg
  }

  /** The steps by which a thread goes on with the call it is in. */
  predicate Continues<T(==)>(a: Action<T>, t: Thread) {
    || a == BeginCall(t) || a == SkipCall(t) || a == EndCall(t) || a == EndNotify(t)
    || a == DisableRemoved(t) || a == EndRemove(t) || a == DisableNext(t) || a == EndClear(t)
  }

  /** Where the thread is in its call decides what it does next, once it is not held up. */
  function NextStep<T(==)>(s: State<T>, t: Thread): Action<T>
    requires Top(s, t).Some?
  {
    match Top(s, t).value
    case Notifying(snapshot, next, running, _, _, _) =>
      if running then EndCall(t)
      else if next >= |snapshot| then EndNotify(t)
      else if snapshot[next] in s.disabledBy then SkipCall(t)
      else BeginCall(t)
    case Removing(_, done) => if done then EndRemove(t) else DisableRemoved(t)
    case Clearing(rest) => if rest == [] then EndClear(t) else DisableNext(t)
  }

  lemma HeldUp<T>(s: State<T>, t: Thread, reg: Registration)
    requires Needs(s, t, reg)
    ensures CanLock(s, t, reg) <==> Enabled(s, NextStep(s, t))
  {
  }

  /** A thread within a call of the event can go on, and in one way, unless another thread runs the callback
      of the delegate it has come to: nothing else holds it up. */
  lemma GoesOn<T>(s: State<T>, t: Thread, a: Action<T>)
    requires Top(s, t).Some? && Continues(a, t)
    ensures Enabled(s, a) <==>
      (a == NextStep(s, t) && forall u: Thread, reg | u != t && Needs(s, t, reg) :: !Runs(s, u, reg))
  {
    forall reg | Needs(s, t, reg) && CanLock(s, t, reg) ensures forall u: Thread | u != t :: !Runs(s, u, reg) {
      CanLockAll(s, t, reg);
    }
  }

  /** A thread that is idle or in a callback can start any call exactly while nobody removes or clears; a
      notification may be handed to an idle thread. */
  lemma StartsUnlessOwned<T>(s: State<T>, t: Thread, w: Thread, target: T, reg: Registration, flag: bool)
    requires Free(s, t)
    ensures Enabled(s, Add(t, target)) <==> s.owner.None?
    ensures Enabled(s, SetEnabled(t, flag)) <==> s.owner.None?
    ensures Enabled(s, RemoveTarget(t, target)) <==> s.owner.None?
    ensures Enabled(s, RemoveHandle(t, reg)) <==> s.owner.None?
    ensures Enabled(s, Clear(t)) <==> s.owner.None?
    ensures Enabled(s, Notify(t, w)) <==> s.owner.None? && (w == t || Top(s, w).None?)
  {
  }

  /** A removal that meets the callback of its delegate on another thread waits for it, with the event's mutex
      in its hands: a callback that calls the event in its turn then waits for the removal. */
  lemma RemovalMeetsCallback<T>(actions: seq<Action<T>>, t: Thread, u: Thread, target: T, i: nat)
    requires Enabled(Run(actions), RemoveTarget(t, target)) && FirstEqual(Run(actions), target, i)
    requires u != t && Runs(Run(actions), u, Run(actions).delegates[i]) && Free(Run(actions), u)
    ensures var s' := Run(actions + [RemoveTarget(t, target)]);
            && Top(s', t).Some? && NextStep(s', t) == DisableRemoved(t) && !Enabled(s', DisableRemoved(t))
            && Top(s', u) == Top(Run(actions), u)
            && !Enabled(s', Add(u, target)) && !Enabled(s', RemoveTarget(u, target)) && !Enabled(s', Notify(u, u))
            && Enabled(s', EndCall(u))
  {
    var s, reg := Run(actions), Run(actions).delegates[i];
    RunLast(actions + [RemoveTarget(t, target)], actions, RemoveTarget(t, target));
    StartsAtFirst(s, t, target, i);
    var s' := Apply(s, RemoveTarget(t, target));
    assert Stack(s', u) == Stack(s, u) && u in s'.stacks && Runs(s', u, reg);
    assert Needs(s', t, reg);
    HeldUp(s', t, reg);
  }
}
