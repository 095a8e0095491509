/** BasicFIFOBuffer over Buffer: a queue in an array that is compacted when room is needed, with
    notifications when it becomes readable or stops being so. */
module Fifo {

  import opened Options

  /** A difference of type `std::size_t`, which has this many values: 2 to the 32 or 2 to the 64. */
  function Wrap(range: nat, difference: int): (w: nat)
    requires 0 <= range + difference && difference < range
  {
    if difference < 0 then range + difference else difference
  }

  /** How much write takes when the room has been made. */
  function Taken(range: nat, size: nat, begin: nat, used: nat, length: nat): nat
    requires size < range && begin + used <= size + range
  {
    var available := Wrap(range, size - used - begin);
    if length > available then available else length
  }

  lemma TakenIs(range: nat, size: nat, begin: nat, used: nat, length: nat)
    requires used <= size < range && begin + used <= size + range && begin + used + length <= size + range
    ensures begin == 0 || begin + used + length <= size ==>
              Taken(range, size, begin, used, length) == Min(length, size - used)
    ensures begin + used > size ==> Taken(range, size, begin, used, length) == length
  {
  }

  /** Poco::Buffer: memory that may be larger than the size in use. */
  class Buffer<T(0)> {
    var ptr: array<T>
    var used: nat

    ghost predicate Valid()
      reads this
    {
      used <= ptr.Length
    }

    constructor (capacity: nat)
      ensures Valid() && used == ptr.Length == capacity && fresh(ptr)
    {
      ptr, used := new T[capacity], capacity;
    }

    method Resize(newCapacity: nat, preserveContent: bool)
      requires Valid()
      modifies this
      ensures Valid() && used == newCapacity
      ensures ptr == old(ptr) || fresh(ptr)
      ensures newCapacity <= old(ptr).Length ==> ptr == old(ptr)
      ensures newCapacity > old(ptr).Length ==> ptr.Length == newCapacity
      ensures preserveContent && newCapacity > old(ptr).Length ==> ptr[..old(used)] == old(ptr[..used])
    {
      if newCapacity > ptr.Length {
        var p := new T[newCapacity];
        if preserveContent {
          forall i | 0 <= i < used { p[i] := ptr[i]; }
        }
        ptr := p;
      }
      used := newCapacity;
    }
  }

  lemma SliceGrows<T>(memory: seq<T>, begin: nat, used: nat, n: nat)
    requires begin + used + n <= |memory|
    ensures memory[begin..begin + used + n] == memory[begin..begin + used] + memory[begin + used..begin + used + n]
  {
  }

  lemma SliceShrinks<T>(memory: seq<T>, begin: nat, used: nat, n: nat)
    requires begin + used <= |memory| && n <= used
    ensures memory[begin..begin + used][..n] == memory[begin..begin + n]
    ensures memory[begin..begin + used][n..] == memory[begin + n..begin + used]
    ensures memory[begin..begin + used] == memory[begin..begin + n] + memory[begin + n..begin + used]
  {
  }

  lemma MovesOver<T>(entered: seq<T>, left: seq<T>, data: seq<T>, rest: seq<T>)
    requires entered == left + (data + rest)
    ensures entered == (left + data) + rest
  {
  }

  lemma SliceOfPrefix<T>(a: seq<T>, b: seq<T>, n: nat, lo: nat, hi: nat)
    requires n <= |a| && n <= |b| && a[..n] == b[..n] && lo <= hi <= n
    ensures a[lo..hi] == b[lo..hi]
  {
    assert a[lo..hi] == a[..n][lo..hi] && b[lo..hi] == b[..n][lo..hi];
  }

  lemma JoinsOn<T>(entered: seq<T>, left: seq<T>, held: seq<T>, tail: seq<T>)
    requires entered == left + held
    ensures entered + tail == left + (held + tail)
  {
  }

  /** The events alternate, beginning with true. */
  ghost predicate Alternating(events: seq<bool>) {
    forall i | 0 <= i < |events| :: events[i] == (i % 2 == 0)
  }

  function Min(a: nat, b: nat): nat {
    if a < b then a else b
  }

  function Max(a: nat, b: nat): nat {
    if a < b then b else a
  }

  /** They alternate, and the last one tells whether anything is there. */
  ghost predicate TracksFill(events: seq<bool>, used: nat) {
    && Alternating(events)
    && (used > 0 <==> events != [] && events[|events| - 1])
  }

  // ---- The queue it is ----

  datatype QueueOp<T> =
    | Write(source: seq<T>) | Copy(source: seq<T>) | Read(length: nat) | Drain(length: nat) | SetError(flag: bool)
  {
    function Source(): seq<T> {
      if Write? || Copy? then source else []
    }
  }

  datatype Queue<T> = Queue(held: seq<T>, error: bool)

  /** A bounded queue: writing takes what fits, copying all or nothing, and an error empties it. */
  function Apply<T>(q: Queue<T>, size: nat, op: QueueOp<T>): Queue<T> {
    match op
    case Write(source) =>
      if q.error || |q.held| > size then q else q.(held := q.held + source[..Min(|source|, size - |q.held|)])
    case Copy(source) => if q.error || |q.held| + |source| > size then q else q.(held := q.held + source)
    case Read(length) => q.(held := q.held[Min(length, |q.held|)..])
    case Drain(length) => q.(held := if length == 0 then [] else q.held[Min(length, |q.held|)..])
    case SetError(flag) => Queue(if flag then [] else q.held, flag)
  }

  function RunQueue<T>(ops: seq<QueueOp<T>>, size: nat): Queue<T> {
    if ops == [] then Queue([], false) else Apply(RunQueue(ops[..|ops| - 1], size), size, ops[|ops| - 1])
  }

  class FifoBuffer<T(0)> {
    /** The number of values of `std::size_t`. */
    const range: nat
    const buffer: Buffer<T>
    var begin: nat
    var used: nat
    var notify: bool
    var eof: bool
    var error: bool

    /** What the observers of the two events were told so far. */
    ghost var readable: seq<bool>
    ghost var writable: seq<bool>
    /** Everything that was ever put in, and everything that was taken out or dropped. */
    ghost var entered: seq<T>
    ghost var left: seq<T>

    /** The live region lies in memory and the queue fits the size. */
    ghost predicate Valid()
      reads `begin, `used, `error, buffer
    {
      && buffer.Valid() && range > 0
      && used <= buffer.used
      && begin + used <= buffer.ptr.Length
      && (error ==> used == 0)
    }

    /** The live region lies within the size: what the subtractions in write and advance rely on. */
    ghost predicate Sound()
      reads `begin, `used, buffer
    {
      begin + used <= buffer.used
    }

    ghost function Contents(): seq<T>
      reads `begin, `used, buffer, buffer.ptr
      requires begin + used <= buffer.ptr.Length
    {
      buffer.ptr[begin..begin + used]
    }

    /** First in, first out: what left, followed by what is held, is what entered. */
    ghost predicate Conserved()
      reads `begin, `used, `entered, `left, buffer, buffer.ptr
      requires begin + used <= buffer.ptr.Length
    {
      entered == left + Contents()
    }

    /** The readable events alternate and the last one tells whether there is something to read. */
    ghost predicate Tracked()
      reads `used, `readable
    {
      TracksFill(readable, used)
    }

    constructor (size: nat, notify: bool, range: nat)
      requires range > 0
      ensures this.range == range
      ensures Valid() && Sound() && Conserved() && Tracked() && Contents() == []
      ensures buffer.used == buffer.ptr.Length == size
      ensures this.notify == notify && !eof && !error && fresh(buffer) && fresh(buffer.ptr)
    {
      this.range := range;
      buffer := new Buffer(size);
      begin, used := 0, 0;
      this.notify, eof, error := notify, false, false;
      readable, writable, entered, left := [], [], [], [];
    }

    predicate IsReadable()
      reads this
    {
      used != 0 && !error
    }

    predicate IsWritable()
      reads this, buffer
    {
      buffer.used != used && !error && !eof
    }

    function Available(): nat
      reads this, buffer
      requires Valid()
    {
      buffer.used - used
    }

    /** The private notify: the edges of "not empty" and of "not full". */
    method Notify(usedBefore: nat)
      modifies this`readable, this`writable
      ensures TracksFill(old(readable), usedBefore) ==> Tracked()
      ensures (usedBefore > 0 <==> used > 0) ==> readable == old(readable)
      ensures !(usedBefore > 0 <==> used > 0) ==> readable == old(readable) + [used > 0]
      ensures usedBefore == buffer.used > used ==> writable == old(writable) + [true]
      ensures usedBefore < buffer.used == used ==> writable == old(writable) + [false]
      ensures (usedBefore < buffer.used <==> used < buffer.used) ==> writable == old(writable)
    {
      if usedBefore == 0 && used > 0 {
        readable := readable + [true];
      } else if usedBefore > 0 && used == 0 {
        readable := readable + [false];
      }
      if usedBefore == buffer.used && used < buffer.used {
        writable := writable + [true];
      } else if usedBefore < buffer.used && used == buffer.used {
        writable := writable + [false];
      }
    }

    /** begin(): moves the data to the front of the memory. */
    method Begin()
      requires Valid()
      modifies this`begin, buffer.ptr
      ensures Valid() && Sound() && begin == 0 && Contents() == old(Contents())
      ensures old(Conserved()) ==> Conserved()
      ensures old(begin) == 0 ==> buffer.ptr[..] == old(buffer.ptr[..])
    {
      if begin != 0 {
        ghost var before := Contents();
        forall i | 0 <= i < used { buffer.ptr[i] := buffer.ptr[begin + i]; }
        begin := 0;
        assert Contents() == before;
      }
    }

    /** next(): the offset of the first free cell. */
    method Next() returns (offset: nat)
      requires Valid()
      modifies this`begin, buffer.ptr
      ensures Valid() && Sound() && begin == 0 && Contents() == old(Contents())
      ensures old(Conserved()) ==> Conserved()
      ensures offset == used && offset + Available() <= buffer.ptr.Length
    {
      Begin();
      offset := used;
    }

    /** The elements stay in place; a position past the end is the exception. */
    method At(index: nat) returns (x: Option<T>)
      requires Valid()
      ensures x == if index < |Contents()| then Some(Contents()[index]) else None
    {
      if index >= used { return None; }
      x := Some(buffer.ptr[begin + index]);
    }

    method Peek(length: nat) returns (data: seq<T>)
      requires Valid()
      ensures data == Contents()[..Min(length, used)]
    {
      if length == 0 || !IsReadable() { return []; }
      var n := if length > used then used else length;
      data := buffer.ptr[begin..begin + n];
    }

    /** The common part of the two forms of read: length is the one the caller gave. */
    method Take(n: nat, length: nat) returns (data: seq<T>)
      requires Valid() && 0 < n == Min(n, used) && (n < used ==> n == length)
      modifies this
      ensures Valid() && (old(Sound()) ==> Sound())
      ensures |data| == n && data == old(Contents())[..n] && Contents() == old(Contents())[n..]
      ensures begin == if used == 0 then 0 else old(begin) + n
      ensures left == old(left) + data && entered == old(entered) && (old(Conserved()) ==> Conserved())
      ensures notify == old(notify) && (old(Tracked()) && notify ==> Tracked())
      ensures eof == old(eof) && error == old(error)
    {
      var usedBefore := used;
      data := MoveOut(n, length);
      if notify { Notify(usedBefore); }
    }

    method MoveOut(n: nat, length: nat) returns (data: seq<T>)
      requires Valid() && 0 < n == Min(n, used) && (n < used ==> n == length)
      modifies `begin, `used, `left
      ensures Valid() && (old(Sound()) ==> Sound()) && used == old(used) - n
      ensures |data| == n && data == old(Contents())[..n] && Contents() == old(Contents())[n..]
      ensures begin == if used == 0 then 0 else old(begin) + n
      ensures left == old(left) + data && (old(Conserved()) ==> Conserved())
    {
      ghost var before := Contents();
      data := buffer.ptr[begin..begin + n];
      assert before[..n] == data;
      SliceShrinks(buffer.ptr[..], begin, used, n);
      if entered == left + before { MovesOver(entered, left, data, before[n..]); }
      used := used - n;
      left := left + data;
      if used == 0 { begin := 0; } else { begin := begin + length; }
      assert Contents() == before[n..];
    }

    /** read into plain memory: the oldest elements, in order. */
    method Read(length: nat) returns (data: seq<T>)
      requires Valid()
      modifies this
      ensures Valid() && (old(Sound()) ==> Sound())
      ensures |data| == Min(length, old(used)) && data == old(Contents())[..|data|]
      ensures Contents() == old(Contents())[|data|..]
      ensures data != [] ==> begin == if used == 0 then 0 else old(begin) + |data|
      ensures left == old(left) + data && entered == old(entered) && (old(Conserved()) ==> Conserved())
      ensures notify == old(notify) && (old(Tracked()) && notify ==> Tracked())
      ensures eof == old(eof) && error == old(error)
    {
      if length == 0 || !IsReadable() { return []; }
      data := Take(Min(length, used), length);
    }

    /** read into a Buffer: length 0, like one that is too large, means everything. */
    method ReadInto(length: nat) returns (data: seq<T>)
      requires Valid()
      modifies this
      ensures Valid() && (old(Sound()) ==> Sound())
      ensures |data| == if length == 0 then old(used) else Min(length, old(used))
      ensures data == old(Contents())[..|data|] && Contents() == old(Contents())[|data|..]
      ensures left == old(left) + data && entered == old(entered) && (old(Conserved()) ==> Conserved())
      ensures notify == old(notify) && (old(Tracked()) && notify ==> Tracked())
      ensures eof == old(eof) && error == old(error)
    {
      if !IsReadable() { return []; }
      data := Take(if length == 0 || length > used then used else length, length);
    }

    /** The common end of write and copy: n elements after the live region. */
    method Store(source: seq<T>, n: nat)
      requires Valid() && n <= |source| && !error && used + n <= buffer.used && begin + used + n <= buffer.ptr.Length
      modifies this, buffer.ptr
      ensures Valid() && begin == old(begin) && Contents() == old(Contents()) + source[..n]
      ensures left == old(left) && entered == old(entered) + source[..n] && (old(Conserved()) ==> Conserved())
      ensures notify == old(notify) && (old(Tracked()) && notify ==> Tracked())
      ensures eof == old(eof) && error == old(error)
    {
      var usedBefore := used;
      MoveIn(source, n);
      if notify { Notify(usedBefore); }
    }

    method MoveIn(source: seq<T>, n: nat)
      requires Valid() && n <= |source| && !error && used + n <= buffer.used && begin + used + n <= buffer.ptr.Length
      modifies `used, `entered, buffer.ptr
      ensures Valid() && used == old(used) + n && Contents() == old(Contents()) + source[..n]
      ensures entered == old(entered) + source[..n] && (old(Conserved()) ==> Conserved())
    {
      ghost var before := Contents();
      forall i | 0 <= i < n { buffer.ptr[begin + used + i] := source[i]; }
      SliceGrows(buffer.ptr[..], begin, used, n);
      assert buffer.ptr[begin + used..begin + used + n] == source[..n];
      assert buffer.ptr[begin..begin + used] == before;
      if entered == left + before { JoinsOn(entered, left, before, source[..n]); }
      used := used + n;
      entered := entered + source[..n];
    }

    /** The compaction in write and advance. The difference it looks at is negative on a buffer that is
        not sound, so that it wraps around and nothing is moved. */
    method MakeRoom(length: nat)
      requires Valid() && buffer.ptr.Length < range && begin + used + length <= buffer.used + range
      modifies this`begin, buffer.ptr
      ensures Valid() && Contents() == old(Contents()) && (old(Conserved()) ==> Conserved())
      ensures old(Sound()) ==> Sound() && (begin == 0 || begin + used + length <= buffer.used)
      ensures !old(Sound()) || old(begin + used) + length <= buffer.used ==>
        begin == old(begin) && buffer.ptr[..] == old(buffer.ptr[..])
    {
      if Wrap(range, buffer.used - (begin + used)) < length { Begin(); }
    }

    /** As much of the source as there is room for, behind what is there, and all of it at the front of
        the memory. Source and memory fit into one address space. `ok` is false where the source would be
        copied beyond the size: on an unsound buffer the room is computed by wrapping around, so that all
        of the source is taken. */
    method Write(source: seq<T>) returns (n: nat, ok: bool)
      requires Valid() && |source| + buffer.ptr.Length < range
      modifies this, buffer.ptr
      ensures Valid() && (old(Sound()) ==> Sound())
      ensures !ok <==> !old(Sound()) && !error && !eof && 0 < buffer.used - old(used) < |source|
      ensures ok ==> n == if error || eof then 0 else Min(|source|, buffer.used - old(used))
      ensures ok && n > 0 ==> begin == 0 && Sound()
      ensures Contents() == old(Contents()) + if ok then source[..n] else []
      ensures left == old(left) && entered == old(entered) + (if ok then source[..n] else [])
      ensures old(Conserved()) ==> Conserved()
      ensures notify == old(notify) && (old(Tracked()) && notify ==> Tracked())
      ensures eof == old(eof) && error == old(error)
    {
      if |source| == 0 || !IsWritable() { return 0, true; }
      MakeRoom(|source|);
      TakenIs(range, buffer.used, begin, used, |source|);
      n := Taken(range, buffer.used, begin, used, |source|);
      Begin();
      if used + n > buffer.used { return n, false; }
      Store(source, n);
      ok := true;
    }

    /** All of the source or none: false is the exception. */
    method Copy(source: seq<T>) returns (ok: bool)
      requires Valid()
      modifies this, buffer.ptr
      ensures Valid() && (old(Sound()) ==> Sound())
      ensures ok <==> |source| == 0 || (|source| <= buffer.used - old(used) && !error && !eof)
      ensures Contents() == old(Contents()) + if ok then source else []
      ensures left == old(left) && entered == old(entered) + (if ok then source else [])
      ensures old(Conserved()) ==> Conserved()
      ensures notify == old(notify) && (old(Tracked()) && notify ==> Tracked())
      ensures eof == old(eof) && error == old(error)
    {
      if |source| == 0 { return true; }
      if |source| > Available() || !IsWritable() { return false; }
      Begin();
      Store(source, |source|);
      assert source[..|source|] == source;
      ok := true;
    }

    /** The common end of advance: cells that are there already become part of the queue. */
    method Extend(length: nat, ghost cells: seq<T>)
      requires Valid() && !error && used + length <= buffer.used && begin + used + length <= buffer.ptr.Length
      requires cells == buffer.ptr[..][begin + used..begin + used + length]
      modifies this
      ensures Valid() && begin == old(begin) && used == old(used) + length
      ensures Contents() == old(Contents()) + cells
      ensures left == old(left) && entered == old(entered) + cells && (old(Conserved()) ==> Conserved())
      ensures notify == old(notify) && (old(Tracked()) && notify ==> Tracked())
      ensures eof == old(eof) && error == old(error)
    {
      ghost var before := Contents();
      SliceGrows(buffer.ptr[..], begin, used, length);
      var usedBefore := used;
      used := used + length;
      assert Contents() == before + cells;
      if entered == left + before { JoinsOn(entered, left, before, cells); }
      entered := entered + cells;
      if notify { Notify(usedBefore); }
    }

    /** The cells after the live region become part of it. Once next() was called they are the cells
        the caller wrote to. On an unsound buffer they may lie beyond the memory. */
    method Advance(length: nat) returns (ok: bool, overrun: bool)
      requires Valid() && buffer.ptr.Length < range
      modifies this, buffer.ptr
      ensures Valid() && (old(Sound()) ==> Sound())
      ensures overrun || ok <==> length <= buffer.used - old(used) && buffer.used != old(used) && !error && !eof
      ensures overrun ==> !ok && !old(Sound()) && old(begin + used) + length > buffer.ptr.Length
      ensures ok ==> old(Sound()) || old(begin + used) + length <= buffer.ptr.Length
      ensures !ok ==> Contents() == old(Contents()) && entered == old(entered)
      ensures ok ==> used == old(used) + length && Contents()[..old(used)] == old(Contents())
      ensures ok ==> entered == old(entered) + Contents()[old(used)..]
      ensures ok && (!old(Sound()) || old(begin + used) + length <= buffer.used) ==>
        Contents()[old(used)..] == old(buffer.ptr[..])[old(begin + used)..old(begin + used) + length]
      ensures left == old(left) && (old(Conserved()) ==> Conserved())
      ensures notify == old(notify) && (old(Tracked()) && notify ==> Tracked())
      ensures eof == old(eof) && error == old(error)
    {
      if length > Available() || !IsWritable() { return false, false; }
      MakeRoom(length);
      if begin + used + length > buffer.ptr.Length { return false, true; }
      Extend(length, buffer.ptr[..][begin + used..begin + used + length]);
      ok, overrun := true, false;
    }

    /** Drops the oldest elements; length 0 drops everything. */
    method Drain(length: nat)
      requires Valid()
      modifies this
      ensures Valid() && (old(Sound()) ==> Sound())
      ensures Contents() == if length == 0 || length >= old(used) then [] else old(Contents())[length..]
      ensures entered == old(entered) && old(left) <= left && (old(Conserved()) ==> Conserved())
      ensures notify == old(notify) && (old(Tracked()) && notify ==> Tracked())
      ensures eof == old(eof) && error == old(error)
    {
      ghost var before := Contents();
      var usedBefore := used;
      if length == 0 || length >= used {
        begin, used := 0, 0;
        left := left + before;
      } else {
        begin, used := begin + length, used - length;
        left := left + before[..length];
        assert Contents() == before[length..];
        assert before == before[..length] + Contents();
      }
      if notify { Notify(usedBefore); }
    }

    /** The position of the data is not changed, so the buffer stays sound exactly if the data, where it
        was, ends within the new size; without the data, if its position does. A later preserving call
        that needs new memory copies only what lies within the size, so on an unsound buffer it keeps
        just that much. */
    method Resize(newSize: nat, preserveContent: bool) returns (ok: bool)
      requires Valid()
      modifies this, buffer
      ensures ok <==> !preserveContent || newSize >= old(used)
      ensures Valid() && begin == old(begin)
      ensures ok ==> buffer.used == newSize && buffer.ptr.Length == Max(newSize, old(buffer.ptr.Length))
      ensures ok ==> (Sound() <==> old(begin) + (if preserveContent then old(used) else 0) <= newSize)
      ensures !ok ==> Contents() == old(Contents()) && unchanged(buffer)
      ensures ok && !preserveContent ==> Contents() == []
      ensures ok && preserveContent ==> used == old(used)
      ensures ok && preserveContent && (old(Sound()) || newSize <= old(buffer.ptr.Length)) ==>
        Contents() == old(Contents())
      ensures ok && preserveContent && !old(Sound()) ==>
        forall i | 0 <= i < used && begin + i < old(buffer.used) :: Contents()[i] == old(Contents())[i]
      ensures entered == old(entered)
      ensures old(Conserved()) && (old(Sound()) || !preserveContent || newSize <= old(buffer.ptr.Length)) ==>
        Conserved()
      ensures buffer.ptr == old(buffer.ptr) || fresh(buffer.ptr)
      ensures notify == old(notify) && (old(Tracked()) && notify ==> Tracked())
      ensures eof == old(eof) && error == old(error)
    {
      if preserveContent && newSize < used { return false; }
      var usedBefore := used;
      if preserveContent { Regrow(newSize); } else { Renew(newSize); }
      if notify { Notify(usedBefore); }
      ok := true;
    }

    method Regrow(newSize: nat)
      requires Valid() && newSize >= used
      modifies buffer
      ensures Valid() && buffer.used == newSize && buffer.ptr.Length == Max(newSize, old(buffer.ptr.Length))
      ensures old(Sound()) || newSize <= old(buffer.ptr.Length) ==> Contents() == old(Contents())
      ensures !old(Sound()) ==>
        forall i | 0 <= i < used && begin + i < old(buffer.used) :: Contents()[i] == old(Contents())[i]
      ensures buffer.ptr == old(buffer.ptr) || fresh(buffer.ptr)
    {
      ghost var was, size := buffer.ptr[..], buffer.used;
      buffer.Resize(newSize, true);
      if newSize <= |was| {
        assert buffer.ptr[..] == was;
      } else if begin + used <= size {
        SliceOfPrefix(buffer.ptr[..], was, size, begin, begin + used);
      } else {
        assert forall i | 0 <= i < size :: buffer.ptr[i] == buffer.ptr[..size][i] == was[i];
      }
    }

    method Renew(newSize: nat)
      requires Valid()
      modifies buffer, `used, `left
      ensures Valid() && buffer.used == newSize && buffer.ptr.Length == Max(newSize, old(buffer.ptr.Length))
      ensures Contents() == [] && (old(Conserved()) ==> Conserved())
      ensures buffer.ptr == old(buffer.ptr) || fresh(buffer.ptr)
    {
      ghost var before := Contents();
      buffer.Resize(newSize, false);
      used := 0;
      left := left + before;
    }

    /** The error flag empties the buffer and stops reading and writing. */
    method SetError(flag: bool)
      requires Valid()
      modifies this
      ensures Valid() && error == flag && (old(Sound()) ==> Sound())
      ensures Contents() == if flag then [] else old(Contents())
      ensures entered == old(entered) && (old(Conserved()) ==> Conserved())
      ensures notify == old(notify) && (old(Tracked()) && notify ==> Tracked())
      ensures eof == old(eof)
      ensures flag ==> !IsReadable() && !IsWritable()
    {
      ghost var before := Contents();
      if flag {
        if IsReadable() && notify { readable := readable + [false]; }
        if IsWritable() && notify { writable := writable + [false]; }
        error := true;
        used := 0;
        left := left + before;
      } else {
        error := false;
        if notify && !eof { writable := writable + [true]; }
      }
    }

    method SetEof(flag: bool)
      requires Valid()
      modifies this`eof, this`writable
      ensures Valid() && eof == flag && (flag ==> !IsWritable())
      ensures writable == old(writable) + if notify then [!flag] else []
    {
      if notify { writable := writable + [!flag]; }
      eof := flag;
    }

    /** One of the calls that leave the size alone. */
    method Perform(op: QueueOp<T>)
      requires Valid() && Sound() && Conserved() && !eof && |op.Source()| + buffer.ptr.Length < range
      modifies this, buffer.ptr
      ensures Valid() && Sound() && Conserved() && !eof && notify == old(notify)
      ensures old(Tracked()) && notify ==> Tracked()
      ensures Queue(Contents(), error) == Apply(old(Queue(Contents(), error)), buffer.used, op)
    {
      match op {
        case Write(source) => var n, ok := Write(source);
        case Copy(source) => var ok := Copy(source); assert source[..|source|] == source;
        case Read(length) => var data := Read(length);
        case Drain(length) => Drain(length);
        case SetError(flag) => SetError(flag);
      }
    }

    /** Over every sequence of such calls on a new buffer: what is held is what the queue holds, what left
        followed by what is held is what entered, and the readable events tell whether anything is there. */
    method PerformAll(ops: seq<QueueOp<T>>)
      requires Valid() && Sound() && Conserved() && !eof && Tracked() && notify && Contents() == [] && !error
      requires forall op <- ops :: |op.Source()| + buffer.ptr.Length < range
      modifies this, buffer.ptr
      ensures Valid() && Conserved() && Tracked()
      ensures Queue(Contents(), error) == RunQueue(ops, buffer.used)
    {
      assert ops[..0] == [];
      for i := 0 to |ops|
        invariant Valid() && Sound() && Conserved() && !eof && Tracked() && notify
        invariant Queue(Contents(), error) == RunQueue(ops[..i], buffer.used)
      {
        assert ops[i] in ops && ops[..i + 1][..i] == ops[..i];
        Perform(ops[i]);
      }
      assert ops[..|ops|] == ops;
    }
  }

  /** A run after which the data lies beyond the size: a sixth cell is given up and one more while the
      two elements left are in the fourth and fifth. */
  method ShrinkUnderData(range: nat) returns (fifo: FifoBuffer<int>)
    requires range >= 0x1_0000_0000
    ensures fresh(fifo) && fresh(fifo.buffer) && fresh(fifo.buffer.ptr) && fifo.buffer.ptr.Length == 6
    ensures fifo.Valid() && !fifo.Sound() && fifo.Contents() == [4, 5] && fifo.buffer.used == 4
    ensures !fifo.error && !fifo.eof && fifo.range == range
  {
    fifo := new FifoBuffer(6, false, range);
    var n, ok := fifo.Write([1, 2, 3, 4, 5]);
    var data := fifo.Read(3);
    assert fifo.begin == 3 && fifo.used == 2;
    ok := fifo.Resize(4, true);
  }

  /** What write does then: two elements are still taken and the buffer is sound again; three, of which
      a sound buffer would take two, are all copied, beyond the size. */
  method WriteAfterShrinking(range: nat) returns (n: nat, fits: bool, overruns: bool)
    requires range >= 0x1_0000_0000
    ensures n == 2 && fits && overruns
  {
    var fifo := ShrinkUnderData(range);
    n, fits := fifo.Write([6, 7]);
    fifo := ShrinkUnderData(range);
    var m, ok := fifo.Write([6, 7, 8]);
    overruns := !ok;
  }
}
