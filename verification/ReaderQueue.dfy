/**
  The queue between the thread that reads the terminal's pipe and the request loop. Every section under the
  lock is one action; a run is any interleaving of them.
 */
module ReaderQueues {
  import opened Shorts

  type Byte = b: int | 0 <= b < 256

  const MAX_QUEUED := 0x10_0000
  const CHUNK := 4096

  /** What a read of the pipe gave. */
  datatype ReadResult = Got(chunk: seq<Byte>) | Nothing | Closed

  /** Where the reader thread is: before its wait for space, in the read, behind the read, or gone. */
  datatype Thread = Waiting | Reading | Holding(result: ReadResult) | Gone

  /**
    The shared record, the thread, and what has passed: `received` from the pipe, `taken` by the loop, `lost`
    when the thread was stopped with a chunk in hand.
   */
  datatype Queue = Queue(bytes: seq<Byte>, head: nat, eof: bool, stop: bool, thread: Thread,
                         received: seq<Byte>, taken: seq<Byte>, lost: seq<Byte>)

  datatype Action =
    | SpaceSeen                     // the thread's wait ends
    | PipeRead(result: ReadResult)  // its read returns
    | Store                         // it puts the result into the queue
    | Take(room: nat)               // the loop takes what fits
    | ConsumeByte(expected: Byte)   // the loop takes one byte, if it is the expected one
    | Stop

  datatype Status = Bytes | Empty | Eof

  const START := Queue([], 0, false, false, Waiting, [], [], [])

  function Queued(q: Queue): seq<Byte>
    requires q.head <= |q.bytes|
  {
    q.bytes[q.head..]
  }

  function InHand(q: Queue): seq<Byte> {
    if q.thread.Holding? && q.thread.result.Got? then q.thread.result.chunk else []
  }

  /** What the queue does not hold yet, or will never hold. */
  function Behind(q: Queue): seq<Byte> { InHand(q) + q.lost }

  /** An empty buffer is cleared. */
  function Compacted(q: Queue): Queue {
    if q.head == |q.bytes| then q.(bytes := [], head := 0) else q
  }

  function Stored(q: Queue): Queue
    requires q.thread.Holding?
  {
    if q.stop then q.(thread := Gone, lost := q.lost + InHand(q))
    else match q.thread.result
      case Got(chunk) =>
        var c := if q.head != 0 then Compacted(q) else q;
        c.(bytes := c.bytes + chunk, thread := Waiting)
      case Nothing => q.(thread := Waiting)
      case Closed => q.(eof := true, thread := Gone)
  }

  function Taken(q: Queue, room: nat): (r: (Queue, Status, seq<Byte>))
    requires q.head <= |q.bytes|
  {
    var n := Min(|q.bytes| - q.head, room);
    if n == 0 then (q, if q.eof then Eof else Empty, [])
    else
      var out := q.bytes[q.head..q.head + n];
      (Compacted(q.(head := q.head + n, taken := q.taken + out)), Bytes, out)
  }

  function Consumed(q: Queue, expected: Byte): (Queue, bool)
    requires q.head <= |q.bytes|
  {
    if q.head == |q.bytes| || q.bytes[q.head] != expected then (q, false)
    else (q.(head := q.head + 1, taken := q.taken + [expected]), true)
  }

  /** An action where it is possible; elsewhere nothing happens. */
  function Step(q: Queue, a: Action): Queue
    requires q.head <= |q.bytes|
  {
    match a
    case SpaceSeen =>
      if q.thread != Waiting then q
      else if q.stop then q.(thread := Gone)
      else if |q.bytes| - q.head < MAX_QUEUED then q.(thread := Reading) else q
    case PipeRead(result) =>
      if q.thread != Reading || (result.Got? && |result.chunk| > CHUNK) then q
      else q.(thread := Holding(result), received := q.received + if result.Got? then result.chunk else [])
    case Store => if q.thread.Holding? then Stored(q) else q
    case Take(room) => Taken(q, room).0
    case ConsumeByte(expected) => Consumed(q, expected).0
    case Stop => q.(stop := true)
  }

  /** No byte is lost, repeated or moved: taken, queued and the chunk in hand are what the pipe gave. */
  ghost predicate Inv(q: Queue) {
    && q.head <= |q.bytes|
    && q.received == q.taken + (Queued(q) + Behind(q))
    && (q.lost != [] ==> q.stop && q.thread == Gone)
    && |InHand(q)| <= CHUNK
    && |Queued(q)| <= MAX_QUEUED - 1 + CHUNK
    && (q.thread == Reading || q.thread.Holding? ==> |Queued(q)| < MAX_QUEUED)
    && (q.eof ==> q.thread == Gone && q.lost == [])
  }

  lemma StepKeeps(q: Queue, a: Action)
    requires Inv(q)
    ensures Inv(Step(q, a))
  {
    match a
    case Take(room) => TakenKeeps(q, room);
    case ConsumeByte(expected) =>
      if Consumed(q, expected).1 { Passed(q, Step(q, a), [expected]); }
    case Store => if q.thread.Holding? { StoredKeeps(q); }
    case PipeRead(result) =>
      if q.thread == Reading && (result.Got? ==> |result.chunk| <= CHUNK) { PipeReadKeeps(q, result); }
    case SpaceSeen => assert InHand(Step(q, a)) == InHand(q) && Queued(Step(q, a)) == Queued(q);
    case Stop =>
  }

  /** Bytes go over from the queue to the loop. */
  lemma Passed(q: Queue, r: Queue, out: seq<Byte>)
    requires Inv(q) && r.head <= |r.bytes| && Queued(q) == out + Queued(r)
    requires r.taken == q.taken + out && r.received == q.received && Behind(r) == Behind(q)
    ensures r.received == r.taken + (Queued(r) + Behind(r))
  {
    var x, y, z := Queued(r), Behind(r), q.taken;
    assert (out + x) + y == out + (x + y);
    assert z + (out + (x + y)) == (z + out) + (x + y);
  }

  lemma TakenKeeps(q: Queue, room: nat)
    requires Inv(q)
    ensures Inv(Taken(q, room).0)
  {
    var n := Min(|q.bytes| - q.head, room);
    if n > 0 {
      var out := q.bytes[q.head..q.head + n];
      var r := Taken(q, room).0;
      assert Queued(r) == q.bytes[q.head + n..];
      assert Queued(q) == out + Queued(r);
      Passed(q, r, out);
    }
  }

  lemma PipeReadKeeps(q: Queue, result: ReadResult)
    requires Inv(q) && q.thread == Reading && (result.Got? ==> |result.chunk| <= CHUNK)
    ensures Inv(Step(q, PipeRead(result)))
  {
    var chunk := if result.Got? then result.chunk else [];
    var r := Step(q, PipeRead(result));
    assert Behind(q) == [] && Queued(q) + [] == Queued(q);
    Appended(q.received, q.taken, Queued(q), chunk);
    assert Behind(r) == chunk;
    assert r.received == q.received + chunk && Queued(r) == Queued(q) && r.taken == q.taken;
  }

  lemma Appended(received: seq<Byte>, taken: seq<Byte>, queued: seq<Byte>, chunk: seq<Byte>)
    requires received == taken + queued
    ensures received + chunk == taken + (queued + chunk)
  {}

  lemma StoredKeeps(q: Queue)
    requires Inv(q) && q.thread.Holding?
    ensures Inv(Stored(q))
  {
    var r := Stored(q);
    assert q.lost == [];
    if q.stop {
      assert Behind(r) == Behind(q);
    } else if q.thread.result.Got? {
      var chunk := q.thread.result.chunk;
      var c := if q.head != 0 then Compacted(q) else q;
      assert Queued(c) == Queued(q);
      assert Queued(r) == Queued(q) + chunk;
      assert Behind(q) == chunk && Behind(r) == [];
      assert (Queued(q) + chunk) + [] == Queued(q) + chunk;
    }
  }

  function Run(actions: seq<Action>): (q: Queue)
    ensures Inv(q)
  {
    if actions == [] then START
    else
      var p := Run(actions[..|actions| - 1]);
      StepKeeps(p, actions[|actions| - 1]);
      Step(p, actions[|actions| - 1])
  }

  /**
    In every interleaving: until the thread is stopped with a chunk in hand, the bytes taken, the bytes queued
    and that chunk are, in order, the bytes the pipe gave; and the queue stays within one chunk of its limit.
   */
  lemma EveryRun(actions: seq<Action>)
    ensures var q := Run(actions);
            && q.head <= |q.bytes|
            && q.taken + Queued(q) <= q.received
            && (!q.stop ==> q.received == (q.taken + Queued(q)) + InHand(q))
            && |Queued(q)| <= 0x10_0000 - 1 + 4096
  {
    var q := Run(actions);
    var x, y := Queued(q), Behind(q);
    assert q.received == (q.taken + x) + y;
    if !q.stop { assert y == InHand(q); }
  }

  /** At end of input with an empty queue, the loop has taken all the pipe gave. */
  lemma DryMeansAll(q: Queue)
    requires Inv(q) && q.eof && Queued(q) == []
    ensures q.taken == q.received
  {
    assert Behind(q) == [];
    assert q.taken + ([] + []) == q.taken;
  }

  /**
    In every run, a caller, who always offers room, is told of the end of input exactly at the end with an empty
    queue, and then all the pipe gave has been taken.
   */
  lemma EofMeansAll(actions: seq<Action>, room: nat)
    requires room > 0
    ensures var q := Run(actions);
            && (Taken(q, room).1 == Eof <==> q.eof && Queued(q) == [])
            && (Taken(q, room).1 == Eof ==> q.taken == q.received)
  {
    var q := Run(actions);
    if Taken(q, room).1 == Eof { DryMeansAll(q); }
  }

  /** The pipe is closed and nothing is queued. */
  ghost predicate AtEnd(q: Queue) { Inv(q) && q.eof && Queued(q) == [] }

  lemma EndStays(q: Queue, a: Action)
    requires AtEnd(q)
    ensures AtEnd(Step(q, a)) && Step(q, a).received == q.received && Step(q, a).taken == q.taken
  {
    StepKeeps(q, a);
    hide Inv;
  }

  /** It is the end: whatever happens later, nothing comes after it. */
  lemma {:induction false} EofIsFinal(actions: seq<Action>, more: seq<Action>, room: nat)
    requires room > 0 && Taken(Run(actions), room).1 == Eof
    ensures Taken(Run(actions + more), room).1 == Eof
    ensures Run(actions + more).received == Run(actions).received == Run(actions + more).taken
  {
    EofMeansAll(actions, room);
    EndRuns(actions, more);
    assert AtEnd(Run(actions + more));
  }

  lemma {:induction false} EndRuns(actions: seq<Action>, more: seq<Action>)
    requires AtEnd(Run(actions))
    ensures var q := Run(actions + more);
            AtEnd(q) && q.received == Run(actions).received && q.taken == Run(actions).taken
  {
    hide Step, AtEnd, Inv;
    if more == [] {
      assert actions + more == actions;
    } else {
      var n := |more| - 1;
      EndRuns(actions, more[..n]);
      assert (actions + more)[..|actions + more| - 1] == actions + more[..n];
      EndStays(Run(actions + more[..n]), more[n]);
    }
  }

  // ---- The shared record ----

  /** The sections under the lock; `trace` is what an observer of the pipe and of the loop has seen. */
  class ReaderState {
    var bytes: seq<Byte>
    var head: nat
    var eof: bool
    var stop: bool
    ghost var trace: Queue

    ghost predicate Valid()
      reads this
    {
      && Inv(trace)
      && bytes == trace.bytes && head == trace.head && eof == trace.eof && stop == trace.stop
    }

    constructor ()
      ensures Valid() && trace == START
    {
      bytes, head, eof, stop, trace := [], 0, false, false, START;
    }

    /** The thread's wait: it goes on when stopped or when there is space. */
    method TrySpace() returns (goOn: bool)
      requires Valid() && trace.thread == Waiting
      modifies this`trace
      ensures Valid() && trace == Step(old(trace), SpaceSeen)
      ensures goOn <==> stop || |Queued(trace)| < MAX_QUEUED
    {
      StepKeeps(trace, SpaceSeen);
      goOn := stop || |bytes| - head < MAX_QUEUED;
      trace := Step(trace, SpaceSeen);
    }

    /** The thread behind its read; `running` is false when it leaves its loop. */
    method StoreResult(result: ReadResult) returns (running: bool)
      requires Valid() && trace.thread == Holding(result)
      modifies this
      ensures Valid() && trace == Step(old(trace), Store) && (running <==> trace.thread == Waiting)
    {
      StepKeeps(trace, Store);
      trace := Step(trace, Store);
      if stop { return false; }
      if result.Got? {
        if head != 0 && head == |bytes| { bytes, head := [], 0; }
        bytes := bytes + result.chunk;
      } else if result.Closed? {
        eof := true;
        return false;
      }
      running := true;
    }

    method TakeQueued(room: nat) returns (status: Status, out: seq<Byte>)
      requires Valid()
      modifies this
      ensures Valid() && (trace, status, out) == Taken(old(trace), room) && |out| <= room
    {
      TakenKeeps(trace, room);
      ghost var was := trace;
      trace := Taken(trace, room).0;
      var n := Min(|bytes| - head, room);
      if n == 0 { return if eof then Eof else Empty, []; }
      out := bytes[head..head + n];
      head := head + n;
      if head == |bytes| { bytes, head := [], 0; }
      status := Bytes;
    }

    method TryConsumeByte(expected: Byte) returns (ok: bool)
      requires Valid()
      modifies this
      ensures Valid() && (trace, ok) == Consumed(old(trace), expected)
    {
      StepKeeps(trace, ConsumeByte(expected));
      trace := Consumed(trace, expected).0;
      if head == |bytes| || bytes[head] != expected { return false; }
      head := head + 1;
      ok := true;
    }

    /** False only when the pipe is closed and nothing is queued. */
    method PeekAvailable() returns (open: bool, available: nat)
      requires Valid()
      ensures available == |Queued(trace)| && (open <==> available != 0 || !eof)
    {
      available := |bytes| - head;
      open := available != 0 || !eof;
    }
  }
}
