/** Common/Demultiplexer.java: the table that routes frames received on a
    connection to the threads waiting for their tag.  Each tag with waiting
    threads or undelivered frames has a `FrameValue` (a waiter count and a
    FIFO queue of frames); `exception` records the reader thread's failure.

    The reader loop's per-frame step (`Enqueue`) and the two halves of
    `receive` (registering as a waiter, then each pass of its `while (true)`
    loop, `TryClaim`) are transitions on the table; a pass that finds nothing
    to return and no failure is where the thread would await a signal. */
module TagDemultiplexer {
  import opened Wire
  import opened FrameCodec

  /** The waiters on a tag and its undelivered frames, oldest first. */
  datatype FrameValue = FrameValue(waiters: nat, queue: seq<Frame>)

  /** What one pass of receive's loop does. */
  datatype Outcome =
    | Claimed(frame: Frame)   // a frame was polled from the queue and returned
    | Raised(error: Error)    // the reader's exception was rethrown
    | Waiting                 // nothing to return: the thread awaits a signal

  datatype Step = Step(outcome: Outcome, table: map<int32, FrameValue>)

  /** The entry of a tag, or the fresh FrameValue receive or the reader would create. */
  function EntryOf(table: map<int32, FrameValue>, tag: int32): FrameValue {
    if tag in table then table[tag] else FrameValue(0, [])
  }

  /** Every entry is in use (a thread waits on it or a frame is queued), and
      every queued frame sits under its own tag. */
  predicate TableValid(table: map<int32, FrameValue>) {
    forall tag | tag in table ::
      && (table[tag].waiters > 0 || table[tag].queue != [])
      && forall i | 0 <= i < |table[tag].queue| :: table[tag].queue[i].tag == tag
  }

  /** The failures the reader's catch clause covers: every failure of a
      read is an IOException except a negative frame length, which makes
      the allocation of the data throw an unchecked exception. */
  predicate IsIOFailure(e: Error) {
    !e.NegativeArraySize?
  }

  /** The reader loop's step for one received frame: the frame joins the back
      of its tag's queue, the entry being created if absent. */
  function Enqueue(table: map<int32, FrameValue>, f: Frame): (r: map<int32, FrameValue>)
    ensures r.Keys == table.Keys + {f.tag}
    ensures r[f.tag].waiters == EntryOf(table, f.tag).waiters
    ensures r[f.tag].queue == EntryOf(table, f.tag).queue + [f]
    ensures forall t | t in table && t != f.tag :: r[t] == table[t]
  {
    var fv := EntryOf(table, f.tag);
    table[f.tag := FrameValue(fv.waiters, fv.queue + [f])]
  }

  /** The start of receive: the tag's entry is created if absent and its
      waiter count incremented. */
  function AddWaiter(table: map<int32, FrameValue>, tag: int32): (r: map<int32, FrameValue>)
    ensures r.Keys == table.Keys + {tag}
    ensures r[tag] == FrameValue(EntryOf(table, tag).waiters + 1, EntryOf(table, tag).queue)
    ensures forall t | t in table && t != tag :: r[t] == table[t]
  {
    var fv := EntryOf(table, tag);
    table[tag := FrameValue(fv.waiters + 1, fv.queue)]
  }

  /** One pass of receive's loop for a thread counted among the tag's
      waiters: a queued frame is polled and returned, the waiter leaving and
      the entry being removed once nobody waits and nothing is queued; with
      an empty queue the reader's exception is rethrown, and otherwise the
      thread waits. */
  function TryClaim(table: map<int32, FrameValue>, exception: Option<Error>, tag: int32): (s: Step)
    requires tag in table && table[tag].waiters > 0
    ensures s.outcome.Claimed? <==> table[tag].queue != []
    ensures s.outcome.Raised? <==> table[tag].queue == [] && exception.Some?
    ensures s.outcome.Raised? ==> s.outcome.error == exception.value
    ensures !s.outcome.Claimed? ==> s.table == table
    ensures s.table.Keys <= table.Keys
    ensures forall t | t in table && t != tag :: t in s.table && s.table[t] == table[t]
  {
    var fv := table[tag];
    if fv.queue != [] then
      var rest := FrameValue(fv.waiters - 1, fv.queue[1..]);
      var table' := if rest.waiters == 0 && rest.queue == [] then table - {tag} else table[tag := rest];
      Step(Claimed(fv.queue[0]), table')
    else if exception.Some? then Step(Raised(exception.value), table)
    else Step(Waiting, table)
  }

  /** A claim returns the oldest frame of the tag's queue and removes it from
      the queue; the claiming thread stops waiting, and the entry disappears
      exactly when no other thread waits and no other frame is queued. */
  lemma ClaimTakesOldest(table: map<int32, FrameValue>, exception: Option<Error>, tag: int32)
    requires tag in table && table[tag].waiters > 0 && table[tag].queue != []
    ensures var s := TryClaim(table, exception, tag);
      && s.outcome == Claimed(table[tag].queue[0])
      && (tag !in s.table <==> table[tag].waiters == 1 && |table[tag].queue| == 1)
      && (tag in s.table ==> s.table[tag] == FrameValue(table[tag].waiters - 1, table[tag].queue[1..]))
  {
  }

  /** In a valid table, the frame a receive for `tag` returns carries `tag`. */
  lemma ClaimedFrameHasTag(table: map<int32, FrameValue>, exception: Option<Error>, tag: int32)
    requires TableValid(table) && tag in table && table[tag].waiters > 0
    requires TryClaim(table, exception, tag).outcome.Claimed?
    ensures TryClaim(table, exception, tag).outcome.frame.tag == tag
  {
    assert table[tag].queue[0].tag == tag;
  }

  lemma EnqueueValid(table: map<int32, FrameValue>, f: Frame)
    requires TableValid(table)
    ensures TableValid(Enqueue(table, f))
  {
    var r := Enqueue(table, f);
    forall t | t in r
      ensures (r[t].waiters > 0 || r[t].queue != []) && forall i | 0 <= i < |r[t].queue| :: r[t].queue[i].tag == t
    {
      if t == f.tag {
        var q := EntryOf(table, f.tag).queue;
        assert r[t].queue == q + [f];
        forall i | 0 <= i < |r[t].queue| ensures r[t].queue[i].tag == t {
          if i < |q| {
            assert r[t].queue[i] == q[i];
          }
        }
      }
    }
  }

  lemma AddWaiterValid(table: map<int32, FrameValue>, tag: int32)
    requires TableValid(table)
    ensures TableValid(AddWaiter(table, tag))
  {
  }

  lemma TryClaimValid(table: map<int32, FrameValue>, exception: Option<Error>, tag: int32)
    requires TableValid(table) && tag in table && table[tag].waiters > 0
    ensures TableValid(TryClaim(table, exception, tag).table)
  {
    var s := TryClaim(table, exception, tag);
    if s.outcome.Claimed? && tag in s.table {
      var q := table[tag].queue;
      assert s.table[tag].queue == q[1..];
      forall i | 0 <= i < |q| - 1 ensures q[1..][i].tag == tag {
        assert q[1..][i] == q[i + 1];
      }
    }
  }

  /** A receive that claims at once leaves the tag's waiter count where it
      was before the call (an entry created by the receive is removed again
      when its queue empties). */
  lemma ReceiveRestoresWaiters(table: map<int32, FrameValue>, exception: Option<Error>, tag: int32)
    requires EntryOf(table, tag).queue != []
    ensures var s := TryClaim(AddWaiter(table, tag), exception, tag);
      && s.outcome == Claimed(EntryOf(table, tag).queue[0])
      && EntryOf(s.table, tag) == FrameValue(EntryOf(table, tag).waiters, EntryOf(table, tag).queue[1..])
  {
  }

  /** A receive that finds the queue empty after the reader has failed
      rethrows the failure and leaves its waiter increment, and the entry it
      may have created, in the table. */
  lemma FailedReceiveKeepsWaiter(table: map<int32, FrameValue>, e: Error, tag: int32)
    requires EntryOf(table, tag).queue == []
    ensures var s := TryClaim(AddWaiter(table, tag), Some(e), tag);
      && s.outcome == Raised(e)
      && s.table == AddWaiter(table, tag)
      && s.table[tag].waiters == EntryOf(table, tag).waiters + 1
  {
  }

  /** After the reader thread has died without recording a failure, a
      receive that finds its tag's queue empty waits, its waiter increment
      in the table; since nothing is delivered any more, every later pass
      finds the same. */
  lemma StrandedReceiveWaits(table: map<int32, FrameValue>, tag: int32)
    requires EntryOf(table, tag).queue == []
    ensures var s := TryClaim(AddWaiter(table, tag), None, tag);
      && s == Step(Waiting, AddWaiter(table, tag))
      && TryClaim(s.table, None, tag) == s
  {
  }

  /** Frames already queued are still returned after the reader has failed:
      the failure only surfaces on an empty queue. */
  lemma QueuedBeforeFailure(table: map<int32, FrameValue>, e: Error, tag: int32)
    requires tag in table && table[tag].waiters > 0 && table[tag].queue != []
    ensures TryClaim(table, Some(e), tag) == TryClaim(table, None, tag)
  {
  }

  // ---------------------------------------------------------------------
  // FIFO order over many deliveries

  /** The reader's steps for a sequence of received frames, in order. */
  function EnqueueAll(table: map<int32, FrameValue>, fs: seq<Frame>): map<int32, FrameValue>
    decreases |fs|
  {
    if fs == [] then table else Enqueue(EnqueueAll(table, fs[..|fs| - 1]), fs[|fs| - 1])
  }

  /** The frames of a sequence that carry `tag`, in order. */
  function WithTag(fs: seq<Frame>, tag: int32): (r: seq<Frame>)
    ensures |r| <= |fs|
    ensures forall i | 0 <= i < |r| :: r[i].tag == tag
    decreases |fs|
  {
    if fs == [] then []
    else WithTag(fs[..|fs| - 1], tag) + (if fs[|fs| - 1].tag == tag then [fs[|fs| - 1]] else [])
  }

  /** After the reader has received `fs`, a tag's queue holds its earlier
      frames followed by the frames of `fs` with that tag, in the order they
      arrived; the waiter count is untouched. */
  lemma {:induction false} EnqueueAllQueue(table: map<int32, FrameValue>, fs: seq<Frame>, tag: int32)
    ensures EntryOf(EnqueueAll(table, fs), tag) ==
      FrameValue(EntryOf(table, tag).waiters, EntryOf(table, tag).queue + WithTag(fs, tag))
    decreases |fs|
  {
    if fs != [] {
      var init := fs[..|fs| - 1];
      EnqueueAllQueue(table, init, tag);
      assert EntryOf(table, tag).queue + WithTag(init, tag) + [fs[|fs| - 1]] ==
        EntryOf(table, tag).queue + (WithTag(init, tag) + [fs[|fs| - 1]]);
    }
  }

  // ---------------------------------------------------------------------
  // The table as an object

  class Demultiplexer {
    var table: map<int32, FrameValue>
    var exception: Option<Error>
    var reading: bool    // the reader thread is still in its loop

    /** While the reader runs, nothing has been recorded. */
    ghost predicate Valid()
      reads this
    {
      TableValid(table) && (reading ==> exception.None?)
    }

    /** The constructor followed by start: the reader thread is running. */
    constructor()
      ensures table == map[] && exception == None && reading && Valid()
    {
      table := map[];
      exception := None;
      reading := true;
    }

    /** The reader thread's step for one received frame. */
    method Deliver(f: Frame)
      requires Valid() && reading
      modifies this
      ensures Valid()
      ensures table == Enqueue(old(table), f) && exception == old(exception) && reading
    {
      var fv := if f.tag in table then table[f.tag] else FrameValue(0, []);
      table := table[f.tag := fv.(queue := fv.queue + [f])];
      EnqueueValid(old(table), f);
    }

    /** The reader thread's catch: an IOException is recorded, never to be
        cleared, and the thread ends.  No waiting thread is signalled. */
    method ReaderFailed(e: Error)
      requires Valid() && reading && IsIOFailure(e)
      modifies this
      ensures Valid()
      ensures exception == Some(e) && table == old(table) && !reading
    {
      exception := Some(e);
      reading := false;
    }

    /** A frame with a negative length: the allocation of its data throws an
        unchecked exception that the catch does not cover, so the reader
        thread dies and nothing is recorded.  No frame is delivered after it
        and no failure is ever raised, so a receive that finds its queue
        empty waits for good (`StrandedReceiveWaits`). */
    method ReaderCrashed()
      requires Valid() && reading
      modifies this
      ensures Valid()
      ensures exception == None && table == old(table) && !reading
    {
      reading := false;
    }

    /** One iteration of the reader loop, given what `c.receive()` yields. */
    method ReaderStep(received: Result<Frame>)
      requires Valid() && reading
      modifies this
      ensures Valid()
      ensures received.Ok? ==> table == Enqueue(old(table), received.value) && exception == None && reading
      ensures received.Err? ==> table == old(table) && !reading
      ensures received.Err? && IsIOFailure(received.error) ==> exception == Some(received.error)
      ensures received.Err? && !IsIOFailure(received.error) ==> exception == None
    {
      match received
      case Ok(f) => Deliver(f);
      case Err(e) =>
        if IsIOFailure(e) {
          ReaderFailed(e);
        } else {
          ReaderCrashed();
        }
    }

    /** receive(tag): register as a waiter, then make the first pass of the
        loop.  `Waiting` means the caller is blocked and resumes with `Recheck`. */
    method Receive(tag: int32) returns (outcome: Outcome)
      requires Valid()
      modifies this
      ensures Valid() && exception == old(exception) && reading == old(reading)
      ensures var s := TryClaim(AddWaiter(old(table), tag), exception, tag);
        outcome == s.outcome && table == s.table
    {
      var fv := if tag in table then table[tag] else FrameValue(0, []);
      table := table[tag := fv.(waiters := fv.waiters + 1)];
      AddWaiterValid(old(table), tag);
      assert table == AddWaiter(old(table), tag);
      outcome := Recheck(tag);
    }

    /** One pass of receive's loop for a thread already counted as a waiter. */
    method Recheck(tag: int32) returns (outcome: Outcome)
      requires Valid() && tag in table && table[tag].waiters > 0
      modifies this
      ensures Valid() && exception == old(exception) && reading == old(reading)
      ensures var s := TryClaim(old(table), exception, tag);
        outcome == s.outcome && table == s.table
    {
      TryClaimValid(table, exception, tag);
      var fv := table[tag];
      if fv.queue != [] {
        fv := fv.(waiters := fv.waiters - 1);
        var reply := fv.queue[0];
        fv := fv.(queue := fv.queue[1..]);
        if fv.waiters == 0 && fv.queue == [] {
          table := table - {tag};
        } else {
          table := table[tag := fv];
        }
        return Claimed(reply);
      }
      if exception.Some? {
        return Raised(exception.value);
      }
      return Waiting;
    }
  }
}
