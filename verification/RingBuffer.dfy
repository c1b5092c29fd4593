/** The ring of free buffer offsets (misc/src/ring_buffer.c): the index arithmetic, the object used by one
    caller at a time, and the value that the concurrent pipelines step through one action at a time. */
module RingBuffers {

  /** `start + k`, wrapped once, as the push does. */
  function WrapIndex(pos: int, cnt: int): int {
    if pos >= cnt then pos - cnt else pos
  }

  predicate Shape(buffer: seq<int>, start: int, used: int) {
    && 0 <= used <= |buffer|
    && 0 <= start
    && (start < |buffer| || (start == 0 && |buffer| == 0))
  }

  /** The queued offsets, oldest first. */
  ghost function Queue(buffer: seq<int>, start: int, used: int): (q: seq<int>)
    requires Shape(buffer, start, used)
    ensures |q| == used
    ensures forall k :: 0 <= k < used ==> q[k] == buffer[WrapIndex(start + k, |buffer|)]
  {
    seq(used, k requires 0 <= k < used => buffer[WrapIndex(start + k, |buffer|)])
  }

  /** The start index after a pop: post-increment, then back to 0 at the end. */
  function NextStart(start: int, cnt: int): int {
    if start + 1 >= cnt then 0 else start + 1
  }

  lemma TakeFirst(buffer: seq<int>, start: int, used: int)
    requires Shape(buffer, start, used) && used > 0
    ensures Shape(buffer, NextStart(start, |buffer|), used - 1)
    ensures Queue(buffer, start, used)
         == [buffer[start]] + Queue(buffer, NextStart(start, |buffer|), used - 1)
  {
    var q, rest := Queue(buffer, start, used), Queue(buffer, NextStart(start, |buffer|), used - 1);
    assert forall k :: 0 <= k < used - 1 ==> q[k + 1] == rest[k];
    assert q == [buffer[start]] + rest;
  }

  lemma PutLast(buffer: seq<int>, start: int, used: int, x: int)
    requires Shape(buffer, start, used) && used < |buffer|
    ensures 0 <= WrapIndex(start + used, |buffer|) < |buffer|
    ensures Shape(buffer[WrapIndex(start + used, |buffer|) := x], start, used + 1)
    ensures Queue(buffer[WrapIndex(start + used, |buffer|) := x], start, used + 1)
         == Queue(buffer, start, used) + [x]
  {
    var pos := WrapIndex(start + used, |buffer|);
    var q, longer := Queue(buffer, start, used), Queue(buffer[pos := x], start, used + 1);
    assert forall k :: 0 <= k < used ==> longer[k] == q[k];
    assert longer == q + [x];
  }

  lemma FullQueue(buffer: seq<int>)
    ensures Shape(buffer, 0, |buffer|) && Queue(buffer, 0, |buffer|) == buffer
  {
    assert Queue(buffer, 0, |buffer|) == buffer;
  }

  /** The unchecked overflow: pushing into a full ring overwrites the oldest offset, and the length counter leaves
      its range. */
  lemma PutWhenFullLosesOldest(buffer: seq<int>, start: int, x: int)
    requires Shape(buffer, start, |buffer|) && |buffer| > 0
    ensures WrapIndex(start + |buffer|, |buffer|) == start
    ensures Queue(buffer[start := x], start, |buffer|) == [x] + Queue(buffer, start, |buffer|)[1..]
    ensures !Shape(buffer[start := x], start, |buffer| + 1)
  {
    var q, overwritten := Queue(buffer, start, |buffer|), Queue(buffer[start := x], start, |buffer|);
    assert forall k :: 0 < k < |buffer| ==> overwritten[k] == q[k];
    assert overwritten == [x] + q[1..];
  }

  /** The ring as one object. `sem` counts the pops that may proceed. */
  class RingBuffer {
    const maxCnt: int
    var sem: int
    var used: int
    var start: int
    const buffer: array<int>

    ghost predicate Valid()
      reads this, buffer
    {
      buffer.Length == maxCnt && Shape(buffer[..], start, used) && sem == used
    }

    ghost function Contents(): seq<int>
      requires Valid()
      reads this, buffer
    {
      Queue(buffer[..], start, used)
    }

    constructor Create(maxCnt: nat, empty: bool)
      ensures Valid() && fresh(buffer) && this.maxCnt == maxCnt
      ensures |Contents()| == if empty then 0 else maxCnt
      ensures forall k :: 0 <= k < |Contents()| ==> Contents()[k] == 0
      ensures start == 0
    {
      this.maxCnt := maxCnt;
      buffer := new int[maxCnt](_ => 0);
      used := if empty then 0 else maxCnt;
      sem := if empty then 0 else maxCnt;
      start := 0;
      new;
    }

    /** The precondition is the state in which the semaphore lets the caller through. */
    method Pop() returns (offs: int)
      requires Valid() && sem > 0
      modifies this
      ensures Valid()
      ensures [offs] + Contents() == old(Contents())
      ensures buffer[..] == old(buffer[..])
    {
      TakeFirst(buffer[..], start, used);
      sem := sem - 1;
      offs := buffer[start];
      start := start + 1;
      if start >= maxCnt {
        start := 0;
      }
      used := used - 1;
    }

    /** The code has no overflow check; its warning states the precondition. */
    method Push(offs: int)
      requires Valid() && used < maxCnt
      modifies this, buffer
      ensures Valid()
      ensures Contents() == old(Contents()) + [offs]
    {
      PutLast(buffer[..], start, used, offs);
      var pos := start + used;
      used := used + 1;
      if pos >= maxCnt {
        pos := pos - maxCnt;
      }
      buffer[pos] := offs;
      sem := sem + 1;
    }

    /** How `pipeline_thread` fills a ring that was created full. */
    method Fill(dataoffset: int, dataSize: int)
      requires Valid() && start == 0 && used == maxCnt
      modifies buffer
      ensures Valid()
      ensures Contents() == seq(maxCnt, i => dataoffset + i * dataSize)
    {
      for i := 0 to maxCnt
        invariant forall k :: 0 <= k < i ==> buffer[k] == dataoffset + k * dataSize
      {
        buffer[i] := dataoffset + i * dataSize;
      }
      FullQueue(buffer[..]);
    }
  }

  /** The ring as a value, with its mutex (owner, or -1) and the histories of pushed and popped offsets. */
  datatype Ring = Ring(sem: nat, mutex: int, used: int, start: int, buffer: seq<int>, pushed: seq<int>,
      popped: seq<int>)

  /** A ring created full and filled with `offsets`. */
  function FullRing(offsets: seq<int>): Ring {
    Ring(|offsets|, -1, |offsets|, 0, offsets, offsets, [])
  }

  /** The body of a pop between lock and unlock; the offset is the last element of `popped`. */
  function Take(r: Ring): Ring
    requires 0 <= r.start < |r.buffer|
  {
    r.(start := NextStart(r.start, |r.buffer|), used := r.used - 1, popped := r.popped + [r.buffer[r.start]])
  }

  /** The body of a push between lock and unlock, with no overflow check. */
  function Put(r: Ring, offs: int): Ring
    requires 0 <= WrapIndex(r.start + r.used, |r.buffer|) < |r.buffer|
  {
    r.(buffer := r.buffer[WrapIndex(r.start + r.used, |r.buffer|) := offs],
       used := r.used + 1, pushed := r.pushed + [offs])
  }

  /** The ring is a FIFO queue: what was pushed is what was popped followed by what is queued. */
  ghost predicate Fifo(r: Ring) {
    && Shape(r.buffer, r.start, r.used)
    && r.pushed == r.popped + Queue(r.buffer, r.start, r.used)
  }

  ghost function Queued(r: Ring): seq<int>
    requires Shape(r.buffer, r.start, r.used)
  {
    Queue(r.buffer, r.start, r.used)
  }

  lemma TakeKeepsFifo(r: Ring)
    requires Fifo(r) && r.used > 0
    ensures Fifo(Take(r)) && Queued(r) == [r.buffer[r.start]] + Queued(Take(r))
  {
    TakeFirst(r.buffer, r.start, r.used);
    assert r.popped + ([r.buffer[r.start]] + Queued(Take(r))) == (r.popped + [r.buffer[r.start]]) + Queued(Take(r));
  }

  lemma PutKeepsFifo(r: Ring, offs: int)
    requires Fifo(r) && r.used < |r.buffer|
    ensures 0 <= WrapIndex(r.start + r.used, |r.buffer|) < |r.buffer|
    ensures Fifo(Put(r, offs)) && Queued(Put(r, offs)) == Queued(r) + [offs]
  {
    PutLast(r.buffer, r.start, r.used, offs);
    assert (r.popped + Queued(r)) + [offs] == r.popped + (Queued(r) + [offs]);
  }

  lemma FifoShape(r: Ring)
    requires Fifo(r)
    ensures Shape(r.buffer, r.start, r.used)
  {
  }
}
