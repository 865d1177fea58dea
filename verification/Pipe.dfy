/**
 The pipe (kernel/pipe.c): a byte queue in a fixed buffer, with one counting
 semaphore that writers wait on and one that readers wait on.

 The kernel switches tasks only where it waits, so a call runs undisturbed from
 its start, or from a wake-up, to the next wait or to its return. Those stretches
 are the steps of the `System` below.
 */
module Pipe {

  import opened Bytes

  /** CONFIG_PIPE_BUFFER_SIZE. */
  const SIZE: nat := 4096

  datatype Outcome =
    | Wrote(data: seq<byte>)
    | Got(bytes: seq<byte>)
    | Again
    | Broken
    | Interrupted
    | Blocks
    | Overrun
    | Nothing

  /**
   A write of `count` bytes goes on when it finds this much room: it is not empty, and there is room
   for all of it or, if it is longer than the buffer, any room at all.
   */
  ghost predicate Goes(room: nat, count: nat) {
    0 < count && 0 < room && (count <= SIZE ==> count <= room)
  }

  /** A write that is under way: a short one is still at its start, a long one has bytes left. */
  ghost predicate Started(data: seq<byte>, pos: nat) {
    pos == 0 || (|data| > SIZE && pos < |data|)
  }

  class Pipe {
    const buffer: array<byte>
    var readPtr: nat
    var writePtr: nat
    var readUsage: nat
    var writeUsage: nat
    var readLock: nat
    var writeLock: nat

    ghost predicate Valid()
      reads `readPtr, `writePtr
    {
      buffer.Length == SIZE && readPtr <= writePtr <= SIZE
    }

    /** The bytes accepted and not yet delivered. */
    ghost function Contents(): seq<byte>
      requires Valid()
      reads `readPtr, `writePtr, buffer
    {
      buffer[readPtr..writePtr]
    }

    /** pipe_create. */
    constructor ()
      ensures Valid() && Contents() == [] && writePtr == 0 && fresh(buffer)
      ensures readUsage == writeUsage == readLock == writeLock == 0
    {
      buffer := new byte[SIZE];
      readPtr, writePtr, readUsage, writeUsage, readLock, writeLock := 0, 0, 0, 0, 0, 0;
    }

    /** pipe_close_read. */
    method CloseRead()
      requires readUsage > 0
      modifies `readUsage, `writeLock
      ensures readUsage == old(readUsage) - 1
      ensures writeLock == old(writeLock) + if readUsage == 0 then 1 else 0
    {
      readUsage := readUsage - 1;
      if readUsage == 0 {
        writeLock := writeLock + 1;
      }
    }

    /** pipe_close_write. */
    method CloseWrite()
      requires writeUsage > 0
      modifies `writeUsage, `readLock
      ensures writeUsage == old(writeUsage) - 1
      ensures readLock == old(readLock) + if writeUsage == 0 then 1 else 0
    {
      writeUsage := writeUsage - 1;
      if writeUsage == 0 {
        readLock := readLock + 1;
      }
    }

    /** The copy and the pointer update of pipe_write. */
    method Put(data: seq<byte>)
      requires Valid() && writePtr + |data| <= SIZE
      modifies `writePtr, `readLock, buffer
      ensures Valid() && Contents() == old(Contents()) + data
      ensures writePtr == old(writePtr) + |data| && readLock == old(readLock) + 1
    {
      forall i | 0 <= i < |data| {
        buffer[writePtr + i] := data[i];
      }
      writePtr := writePtr + |data|;
      readLock := readLock + 1;
    }

    /**
     pipe_write of any length from position `pos` on, up to its return or to a wait
     on a zero semaphore; `done` is the position it reached. A turn that would copy
     past the end of the data stops the model with Overrun. It happens exactly when
     the write is longer than the buffer and there is more room than data left.
     */
    method WriteLoop(data: seq<byte>, pos: nat, nonBlock: bool) returns (o: Outcome, done: nat)
      requires Valid() && Started(data, pos)
      modifies `writePtr, `readLock, `writeLock, buffer
      ensures Valid() && pos <= done <= |data| && Contents() == old(Contents()) + data[pos..done]
      ensures writePtr == old(writePtr) + (done - pos) && readLock == old(readLock) + if done == pos then 0 else 1
      ensures o == Overrun <==> |data| > SIZE > old(writePtr) && SIZE - old(writePtr) > |data| - pos
      ensures o.Wrote? ==> o == Wrote(data) && done == |data| && writeLock == old(writeLock)
      ensures |data| <= SIZE ==> (o.Wrote? <==> 0 < |data| <= SIZE - old(writePtr)) && (!o.Wrote? ==> done == pos)
      ensures |data| > SIZE ==> (o.Wrote? <==> 0 < SIZE - old(writePtr) == |data| - pos)
      ensures |data| > SIZE && o != Overrun ==> done == pos + (SIZE - old(writePtr))
      ensures o == Overrun ==> done == pos && writeLock == old(writeLock)
      ensures o.Wrote? || o == Overrun || o == Again || o == Broken || o == Blocks
      ensures o == Broken ==> readUsage == 0
      ensures o == Again ==> nonBlock && readUsage != 0
      ensures o == Blocks ==> !nonBlock && writeLock == 0 && (readUsage != 0 || old(writeLock) == 0)
      ensures nonBlock ==> writeLock == old(writeLock)
      ensures o == Broken && !nonBlock ==> old(writeLock) == writeLock + 1
    {
      hide Contents;
      done := pos;
      ghost var had := Contents();
      assert had + data[pos..pos] == had;
      while true
        invariant Valid() && Started(data, done) && pos <= done <= |data|
        invariant Contents() == had + data[pos..done] && writePtr == old(writePtr) + (done - pos)
        invariant readLock == old(readLock) + if done == pos then 0 else 1
        invariant done > pos ==> writePtr == SIZE && Goes(SIZE - old(writePtr), |data|)
        invariant writeLock <= old(writeLock)
        invariant writeLock < old(writeLock) ==> !nonBlock && readUsage != 0 && !Goes(SIZE - writePtr, |data|)
        decreases writeLock, SIZE - writePtr
      {
        var turn := SIZE - writePtr;
        if turn > |data| {
          turn := |data|;
        }
        if turn == 0 || (turn < |data| && |data| <= SIZE) {
          if nonBlock {
            return if readUsage != 0 then Again else Broken, done;
          }
          if writeLock == 0 {
            return Blocks, done;
          }
          writeLock := writeLock - 1;
          if readUsage == 0 {
            return Broken, done;
          }
        } else {
          if done + turn > |data| {
            return Overrun, done;
          }
          Extended(had, data, pos, done, done + turn);
          Put(data[done..done + turn]);
          done := done + turn;
          if done == |data| {
            return Wrote(data), done;
          }
        }
      }
    }

    /** Reset of an empty buffer, with the wake-up of a writer. */
    method Reset()
      requires Valid()
      modifies `readPtr, `writePtr, `writeLock
      ensures Valid() && Contents() == [] && writePtr == 0 && writeLock == old(writeLock) + 1
    {
      writePtr, readPtr := 0, 0;
      writeLock := writeLock + 1;
    }

    /**
     The end of a read that was served in full: reset, or move the rest to the front if a scratch
     buffer is to be had.
     */
    method Compact(spare: bool)
      requires Valid()
      modifies `readPtr, `writePtr, `writeLock, buffer
      ensures Valid() && Contents() == old(Contents())
      ensures if spare || old(Contents()) == [] then writePtr == |old(Contents())| && writeLock == old(writeLock) + 1
        else writePtr == old(writePtr) && writeLock == old(writeLock)
    {
      var turn := writePtr - readPtr;
      if turn == 0 {
        Reset();
      } else if spare {
        forall i | 0 <= i < turn {
          buffer[i] := buffer[readPtr + i];
        }
        writePtr := turn;
        readPtr := 0;
        writeLock := writeLock + 1;
      }
    }

    /** The copy out and the pointer update of pipe_read. */
    method Take(turn: nat) returns (bytes: seq<byte>)
      requires Valid() && turn <= writePtr - readPtr
      modifies `readPtr
      ensures Valid() && bytes == old(Contents())[..turn] && Contents() == old(Contents())[turn..]
      ensures readPtr == old(readPtr) + turn
    {
      ghost var had := Contents();
      bytes := buffer[readPtr..readPtr + turn];
      assert bytes == had[..turn];
      readPtr := readPtr + turn;
      assert Contents() == had[turn..];
    }

    lemma HowMany()
      requires Valid()
      ensures |Contents()| == writePtr - readPtr
    {
    }

    /**
     pipe_read with bytes to take: a turn, and unless that served the read in full a second one that
     finds the pipe empty.
     */
    method ReadData(count: nat, spare: bool) returns (o: Outcome)
      requires Valid() && 0 < count && readPtr < writePtr
      modifies `readPtr, `writePtr, `writeLock, buffer
      ensures Valid()
      ensures var had := old(Contents()); var n := if count < |had| then count else |had|;
        && o == Got(had[..n]) && Contents() == had[n..]
        && (if n == |had| || spare then writePtr == |had| - n && writeLock == old(writeLock) + 1
            else writePtr == old(writePtr) && writeLock == old(writeLock))
    {
      hide Contents;
      HowMany();
      ghost var had := Contents();
      var turn := writePtr - readPtr;
      if turn > count {
        turn := count;
      }
      assert turn == |had| ==> had[..turn] == had && had[turn..] == [];
      var bytes := Take(turn);
      if |bytes| == count {
        Compact(spare);
      } else {
        Reset();
      }
      return Got(bytes);
    }

    /** pipe_read with nothing to take, up to its return or to a wait on a zero semaphore. */
    method ReadEmpty(nonBlock: bool) returns (o: Outcome)
      requires Valid()
      modifies `readPtr, `writePtr, `readLock, `writeLock
      ensures Valid() && readPtr == writePtr == 0
      ensures writeLock == old(writeLock) + 1 + (if o.Blocks? then old(readLock) - readLock else 0)
      ensures o == (if nonBlock then (if writeUsage != 0 then Again else Got([]))
                    else if old(readLock) == 0 || writeUsage != 0 then Blocks else Got([]))
      ensures readLock == (if nonBlock then old(readLock)
                           else if writeUsage != 0 || old(readLock) == 0 then 0 else old(readLock) - 1)
    {
      while true
        invariant Valid() && readLock <= old(readLock) && writeLock == old(writeLock) + (old(readLock) - readLock)
        invariant readLock == old(readLock) || (!nonBlock && writeUsage != 0)
        decreases readLock
      {
        Reset();
        if nonBlock {
          return if writeUsage != 0 then Again else Got([]);
        }
        if readLock == 0 {
          return Blocks;
        }
        readLock := readLock - 1;
        if writePtr == readPtr && writeUsage == 0 {
          return Got([]);
        }
      }
    }

    /**
     pipe_read up to its return or to a wait on a zero semaphore. `spare` says
     whether the heap has a scratch buffer left. A read that asks for nothing finds
     nothing to take, and resets the pipe all the same.
     */
    method ReadLoop(count: nat, nonBlock: bool, spare: bool) returns (o: Outcome)
      requires Valid()
      modifies `readPtr, `writePtr, `readLock, `writeLock, buffer
      ensures Valid()
      ensures var had := old(Contents()); var n := if count < |had| then count else |had|; n > 0 ==>
        && o == Got(had[..n]) && Contents() == had[n..] && readLock == old(readLock)
        && (if n == |had| || spare then writePtr == |had| - n && writeLock == old(writeLock) + 1
            else writePtr == old(writePtr) && writeLock == old(writeLock))
      ensures count == 0 || old(Contents()) == [] ==>
        && Contents() == [] && writePtr == 0
        && writeLock == old(writeLock) + 1 + (if o.Blocks? then old(readLock) - readLock else 0)
        && o == (if nonBlock then (if writeUsage != 0 then Again else Got([]))
                 else if old(readLock) == 0 || writeUsage != 0 then Blocks else Got([]))
        && readLock == (if nonBlock then old(readLock)
                        else if writeUsage != 0 || old(readLock) == 0 then 0 else old(readLock) - 1)
    {
      if count > 0 && writePtr > readPtr {
        o := ReadData(count, spare);
      } else {
        o := ReadEmpty(nonBlock);
      }
    }
  }

  lemma Extended(had: seq<byte>, data: seq<byte>, pos: nat, done: nat, next: nat)
    requires pos <= done <= next <= |data|
    ensures had + data[pos..done] + data[done..next] == had + data[pos..next]
  {
    assert data[pos..next] == data[pos..done] + data[done..next];
  }

  // ---------- many tasks on one pipe ----------

  /** A call that runs or waits; a write with the position it has reached. */
  datatype Call = Writing(data: seq<byte>, pos: nat) | Reading(count: nat)

  /** What the scheduler and the tasks do next. `spare` answers the scratch allocation of a read. */
  datatype Event =
    | Write(pid: nat, data: seq<byte>, nonBlock: bool)
    | Read(pid: nat, count: nat, nonBlock: bool, spare: bool)
    | Wake(pid: nat, spare: bool)
    | Interrupt(pid: nat)
    | OpenRead
    | OpenWrite
    | CloseRead
    | CloseWrite

  ghost predicate UnderWay(c: Call) {
    c.Writing? ==> Started(c.data, c.pos)
  }

  function Advanced(c: Call, put: seq<byte>): Call {
    if c.Writing? then c.(pos := c.pos + |put|) else c
  }

  /** The bytes an outcome delivers. */
  ghost function Out(o: Outcome): seq<byte> {
    if o.Got? then o.bytes else []
  }

  /**
   A write puts in the next bytes of its data; one of at most SIZE bytes puts in all of them at once,
   or none. A read returns no more than it asked for.
   */
  ghost predicate Accepts(c: Call, o: Outcome, put: seq<byte>) {
    match c
    case Writing(data, pos) =>
      && pos + |put| <= |data| && put == data[pos..pos + |put|] && !o.Got?
      && (o.Wrote? ==> o == Wrote(data) && pos + |put| == |data|)
      && (|data| <= SIZE ==> o != Overrun && put == if o.Wrote? then data else [])
    case Reading(count) =>
      put == [] && !o.Wrote? && o != Overrun && (o.Got? ==> |o.bytes| <= count)
  }

  /** A long write fills the room there is, or runs past its data. */
  ghost predicate Fills(c: Call, room: nat, o: Outcome, put: seq<byte>) {
    c.Writing? && |c.data| > SIZE && room > 0 && c.pos <= |c.data| ==>
      if room > |c.data| - c.pos then o == Overrun else |put| == room && (o == Blocks || o.Wrote?)
  }

  /** The open ends of the pipe. */
  datatype Ends = Ends(readers: nat, writers: nat)

  /**
   What an answer tells: EPIPE that nobody can read, the end of the file that nobody can write, EAGAIN
   that somebody can and that the caller did not want to wait.
   */
  ghost predicate Tells(c: Call, nonBlock: bool, u: Ends, o: Outcome) {
    && o != Nothing && o != Interrupted && (o == Blocks ==> !nonBlock)
    && (o == Broken ==> c.Writing? && u.readers == 0)
    && (c.Reading? && o == Got([]) ==> u.writers == 0)
    && (o == Again ==> nonBlock && if c.Writing? then u.readers > 0 else u.writers > 0)
  }

  /** Task `pid` ran the call `c`; `b` and `b'` are the waiting calls before and after. */
  ghost predicate Ran(b: map<nat, Call>, u: Ends, pid: nat, c: Call, nonBlock: bool, o: Outcome, put: seq<byte>,
                      b': map<nat, Call>) {
    && Accepts(c, o, put) && Tells(c, nonBlock, u, o)
    && b' == if o == Blocks then b[pid := Advanced(c, put)] else b - {pid}
  }

  ghost predicate Idles(b: map<nat, Call>, o: Outcome, put: seq<byte>, b': map<nat, Call>) {
    o == Nothing && put == [] && b' == b
  }

  /**
   What an event makes of the waiting calls and of the open ends. A call of a waiting
   task, a wake-up on a zero semaphore and a close that no open precedes do not happen.
   */
  ghost predicate Moves(b: map<nat, Call>, u: Ends, e: Event, o: Outcome, put: seq<byte>, b': map<nat, Call>) {
    match e
    case Write(pid, data, nonBlock) =>
      if pid in b then Idles(b, o, put, b') else Ran(b, u, pid, Writing(data, 0), nonBlock, o, put, b')
    case Read(pid, count, nonBlock, _) =>
      if pid in b then Idles(b, o, put, b') else Ran(b, u, pid, Reading(count), nonBlock, o, put, b')
    case Wake(pid, _) =>
      if pid in b && o != Nothing then Ran(b, u, pid, b[pid], false, o, put, b') else Idles(b, o, put, b')
    case Interrupt(pid) => if pid in b then o == Interrupted && put == [] && b' == b - {pid} else Idles(b, o, put, b')
    case _ => Idles(b, o, put, b')
  }

  ghost predicate Turns(u: Ends, e: Event, u': Ends) {
    && u'.readers - u.readers == (if e == OpenRead then 1 else if e == CloseRead && u.readers > 0 then -1 else 0)
    && u'.writers - u.writers == (if e == OpenWrite then 1 else if e == CloseWrite && u.writers > 0 then -1 else 0)
  }

  ghost predicate Traced(events: seq<Event>, outs: seq<Outcome>, puts: seq<seq<byte>>, bs: seq<map<nat, Call>>,
                         us: seq<Ends>) {
    && |outs| == |puts| == |events| && |us| == |bs| == |events| + 1
    && (forall i :: 0 <= i < |events| ==> Moves(bs[i], us[i], events[i], outs[i], puts[i], bs[i + 1]))
    && (forall i :: 0 <= i < |events| ==> Turns(us[i], events[i], us[i + 1]))
  }

  lemma TracedMore(events: seq<Event>, outs: seq<Outcome>, puts: seq<seq<byte>>, bs: seq<map<nat, Call>>,
                   us: seq<Ends>, i: nat, o: Outcome, put: seq<byte>, b: map<nat, Call>, u: Ends)
    requires i < |events| && Traced(events[..i], outs, puts, bs, us)
    requires Moves(bs[i], us[i], events[i], o, put, b) && Turns(us[i], events[i], u)
    ensures Traced(events[..i + 1], outs + [o], puts + [put], bs + [b], us + [u])
  {
    hide Moves, Turns;
    var events', outs', puts', bs', us' := events[..i + 1], outs + [o], puts + [put], bs + [b], us + [u];
    forall j | 0 <= j < |events'|
      ensures Moves(bs'[j], us'[j], events'[j], outs'[j], puts'[j], bs'[j + 1]) && Turns(us'[j], events'[j], us'[j + 1])
    {
      if j < i {
        assert events'[j] == events[..i][j];
      }
    }
  }

  lemma TracedLess(events: seq<Event>, outs: seq<Outcome>, puts: seq<seq<byte>>, bs: seq<map<nat, Call>>,
                   us: seq<Ends>, n: nat)
    requires n <= |events| && Traced(events, outs, puts, bs, us)
    ensures Traced(events[..n], outs[..n], puts[..n], bs[..n + 1], us[..n + 1])
  {
    hide Moves, Turns;
  }

  /** The bytes that the events of one task put in. */
  ghost function PutBy(events: seq<Event>, puts: seq<seq<byte>>, pid: nat): seq<byte>
    requires |puts| == |events|
  {
    if events == [] then [] else
      var n := |events| - 1;
      PutBy(events[..n], puts[..n], pid) + if Runs(events[n], pid) then puts[n] else []
  }

  ghost predicate Runs(e: Event, pid: nat) {
    (e.Write? || e.Wake?) && e.pid == pid
  }

  lemma WriteStarts(b: map<nat, Call>, u: Ends, e: Event, o: Outcome, put: seq<byte>, b': map<nat, Call>)
    requires e.Write? && e.pid !in b && Moves(b, u, e, o, put, b')
    ensures Runs(e, e.pid) && put <= e.data && (o.Wrote? ==> put == e.data)
    ensures e.pid in b' ==> b'[e.pid] == Writing(e.data, |put|)
  {
  }

  /** One event while a write is under way. */
  lemma WriteGoesOn(b: map<nat, Call>, u: Ends, e: Event, o: Outcome, put: seq<byte>, b': map<nat, Call>, pid: nat,
                    data: seq<byte>, sent: seq<byte>)
    requires Moves(b, u, e, o, put, b') && sent <= data && pid in b && b[pid] == Writing(data, |sent|)
    ensures var next := sent + if Runs(e, pid) then put else [];
      && next <= data && (pid in b' ==> b'[pid] == Writing(data, |next|))
      && (o.Wrote? && Runs(e, pid) ==> next == data)
  {
  }

  /**
   A write over all its waits: at every moment the bytes its task has put in are the beginning of its data, and when
   it returns they are all of it, each byte once and in order.
   */
  lemma {:induction false} WholeWrite(events: seq<Event>, outs: seq<Outcome>, puts: seq<seq<byte>>,
                                      bs: seq<map<nat, Call>>, us: seq<Ends>, pid: nat)
    requires Traced(events, outs, puts, bs, us) && |events| > 0
    requires events[0].Write? && events[0].pid == pid && pid !in bs[0]
    requires forall k :: 0 < k < |events| ==> pid in bs[k]
    ensures var n := |events|; var data := events[0].data; var sent := PutBy(events, puts, pid);
      && sent <= data
      && (pid in bs[n] ==> bs[n][pid] == Writing(data, |sent|))
      && (outs[n - 1].Wrote? && Runs(events[n - 1], pid) ==> sent == data)
  {
    hide Moves, Turns, Runs;
    var n := |events| - 1;
    assert PutBy(events, puts, pid) ==
      PutBy(events[..n], puts[..n], pid) + if Runs(events[n], pid) then puts[n] else [];
    if n > 0 {
      TracedLess(events, outs, puts, bs, us, n);
      WholeWrite(events[..n], outs[..n], puts[..n], bs[..n + 1], us[..n + 1], pid);
      WriteGoesOn(bs[n], us[n], events[n], outs[n], puts[n], bs[n + 1], pid, events[0].data,
                  PutBy(events[..n], puts[..n], pid));
    } else {
      WriteStarts(bs[0], us[0], events[0], outs[0], puts[0], bs[1]);
      assert PutBy([], [], pid) == [];
    }
  }

  ghost function Joined(parts: seq<seq<byte>>): seq<byte> {
    if parts == [] then [] else Joined(parts[..|parts| - 1]) + parts[|parts| - 1]
  }

  /** All bytes the outcomes delivered. */
  ghost function Taken(outs: seq<Outcome>): seq<byte> {
    if outs == [] then [] else Taken(outs[..|outs| - 1]) + Out(outs[|outs| - 1])
  }

  /** A read of no bytes at all. */
  ghost predicate AsksNothing(e: Event) {
    e.Read? && e.count == 0
  }

  /** Only `r` reads and only `w` writes, and not nothing. */
  ghost predicate OnlyPair(e: Event, r: nat, w: nat) {
    (e.Read? ==> e.pid == r) && (e.Write? ==> e.pid == w && e.data != [])
  }

  /** Events that bring no writer and do not interrupt `pid`. */
  ghost predicate NoWriter(e: Event, pid: nat) {
    !e.Write? && e != OpenWrite && e != Interrupt(pid)
  }

  class System {
    const pipe: Pipe
    var blocked: map<nat, Call>

    ghost predicate Valid()
      reads this, pipe
    {
      pipe.Valid() && forall p :: p in blocked ==> UnderWay(blocked[p])
    }

    /**
     One reader and one writer, and no lost wake-up: a waiting reader on a zero
     semaphore has an empty pipe, a waiting writer on a zero semaphore too little room.
     */
    ghost predicate Calm(r: nat, w: nat)
      reads this, pipe
    {
      && r != w && blocked.Keys <= {r, w} && pipe.writePtr <= SIZE
      && (r in blocked ==> blocked[r].Reading? && (pipe.readLock == 0 ==> pipe.writePtr == 0))
      && (w in blocked ==> blocked[w].Writing? && blocked[w].data != [])
      && (w in blocked && pipe.writeLock == 0 ==> !Goes(SIZE - pipe.writePtr, |blocked[w].data|))
    }

    ghost function Open(): Ends
      reads pipe`readUsage, pipe`writeUsage
    {
      Ends(pipe.readUsage, pipe.writeUsage)
    }

    /** No waiting read asks for no bytes. */
    ghost predicate Busy()
      reads this
    {
      forall p :: p in blocked ==> blocked[p] != Reading(0)
    }

    /** Task `pid` waits to read and there is no writer, open or waiting, to wake it. */
    ghost predicate Stuck(pid: nat)
      reads this, pipe
    {
      && pid in blocked && (forall p :: p in blocked ==> blocked[p].Reading?)
      && pipe.writeUsage == 0 && pipe.readLock == 0 && pipe.readPtr == pipe.writePtr
    }

    constructor (pipe: Pipe)
      requires pipe.Valid()
      ensures Valid() && this.pipe == pipe && blocked == map[]
    {
      this.pipe := pipe;
      blocked := map[];
    }

    /** Runs a call to its return or its next wait; `put` are the bytes it puts into the pipe. */
    method Serve(pid: nat, call: Call, nonBlock: bool, spare: bool) returns (o: Outcome, put: seq<byte>)
      requires Valid() && UnderWay(call)
      modifies `blocked, pipe`readPtr, pipe`writePtr, pipe`readLock, pipe`writeLock, pipe.buffer
      ensures Valid() && Ran(old(blocked), Open(), pid, call, nonBlock, o, put, blocked)
      ensures old(pipe.Contents()) + put == Out(o) + pipe.Contents() <==>
        !(call == Reading(0) && old(pipe.Contents()) != [])
      ensures o == Blocks && call.Reading? ==>
        pipe.readLock == 0 && pipe.writePtr == 0 && pipe.writeLock > old(pipe.writeLock)
      ensures o == Blocks && call.Writing? ==> pipe.writeLock == 0 && !Goes(SIZE - pipe.writePtr, |call.data|)
      ensures call.Reading? ==> pipe.readLock <= old(pipe.readLock) && pipe.writeLock >= old(pipe.writeLock)
      ensures call.Reading? && pipe.writeLock == old(pipe.writeLock) ==> pipe.writePtr == old(pipe.writePtr)
      ensures call.Reading? && old(pipe.readLock) == 0 && old(pipe.readPtr) == old(pipe.writePtr) ==>
        pipe.readPtr == pipe.writePtr && (!nonBlock ==> o == Blocks)
      ensures call.Writing? ==> pipe.readLock >= old(pipe.readLock)
      ensures call.Writing? && pipe.readLock == old(pipe.readLock) ==> pipe.writePtr == old(pipe.writePtr)
      ensures call.Writing? ==> pipe.writePtr == old(pipe.writePtr) + |put|
      ensures call.Writing? ==> (o == Overrun <==>
        |call.data| > SIZE > old(pipe.writePtr) && SIZE - old(pipe.writePtr) > |call.data| - call.pos)
      ensures call.Writing? && |call.data| > SIZE && o != Overrun ==> |put| == SIZE - old(pipe.writePtr)
      ensures call.Writing? && !nonBlock && (pipe.readUsage > 0 || old(pipe.writeLock) == 0) ==>
        o.Wrote? || o == Overrun || o == Blocks
      ensures pipe.readPtr == old(pipe.readPtr) || call.Reading?
    {
      hide pipe.Contents;
      if call.Writing? {
        var done;
        o, done := pipe.WriteLoop(call.data, call.pos, nonBlock);
        put := call.data[call.pos..done];
      } else {
        o := ServeRead(call.count, nonBlock, spare);
        put := [];
      }
      blocked := if o == Blocks then blocked[pid := Advanced(call, put)] else blocked - {pid};
    }

    method ServeRead(count: nat, nonBlock: bool, spare: bool) returns (o: Outcome)
      requires pipe.Valid()
      modifies pipe`readPtr, pipe`writePtr, pipe`readLock, pipe`writeLock, pipe.buffer
      ensures pipe.Valid() && Accepts(Reading(count), o, []) && Tells(Reading(count), nonBlock, Open(), o)
      ensures old(pipe.Contents()) + [] == Out(o) + pipe.Contents() <==> !(count == 0 && old(pipe.Contents()) != [])
      ensures o == Blocks ==> pipe.readLock == 0 && pipe.writePtr == 0 && pipe.writeLock > old(pipe.writeLock)
      ensures pipe.readLock <= old(pipe.readLock) && pipe.writeLock >= old(pipe.writeLock)
      ensures pipe.writeLock == old(pipe.writeLock) ==> pipe.writePtr == old(pipe.writePtr)
      ensures old(pipe.readLock) == 0 && old(pipe.readPtr) == old(pipe.writePtr) ==>
        pipe.readPtr == pipe.writePtr && (!nonBlock ==> o == Blocks)
    {
      hide pipe.Contents;
      ghost var had := pipe.Contents();
      pipe.HowMany();
      o := pipe.ReadLoop(count, nonBlock, spare);
      pipe.HowMany();
      TakenPrefix(had, count, pipe.Contents(), o);
    }

    /** A waiting task that the scheduler tries to wake: it takes the semaphore and goes on behind the wait. */
    method Resume(pid: nat, spare: bool, ghost r: nat, ghost w: nat) returns (o: Outcome, put: seq<byte>)
      requires Valid() && pid in blocked
      modifies `blocked, pipe`readPtr, pipe`writePtr, pipe`readLock, pipe`writeLock, pipe.buffer
      ensures Valid()
      ensures o == Nothing <==> old((if blocked[pid].Writing? then pipe.writeLock else pipe.readLock) == 0)
      ensures if o == Nothing then put == [] && blocked == old(blocked) && unchanged(pipe) && unchanged(pipe.buffer)
        else Ran(old(blocked), Open(), pid, old(blocked[pid]), false, o, put, blocked)
      ensures old(blocked[pid]) != Reading(0) ==> old(pipe.Contents()) + put == Out(o) + pipe.Contents()
      ensures o == Blocks && old(blocked[pid]).Reading? ==>
        pipe.readLock == 0 && pipe.writePtr == 0 && pipe.writeLock > old(pipe.writeLock)
      ensures old(blocked[pid]).Writing? && o != Nothing && pipe.readUsage == 0 ==> o == Broken
      ensures old(blocked[pid]).Reading? && o != Nothing && pipe.writeUsage == 0 && old(pipe.Contents()) == [] ==>
        o == Got([])
      ensures old(blocked[pid]).Writing? && o != Nothing && pipe.readUsage > 0 ==>
        && pipe.writePtr == old(pipe.writePtr) + |put| && pipe.readPtr == old(pipe.readPtr)
        && Fills(old(blocked[pid]), SIZE - old(pipe.writePtr), o, put) && (o == Blocks ==> pipe.writeLock == 0)
      ensures old(Calm(r, w)) ==> Calm(r, w)
      ensures old(Calm(r, w)) && pid == w && old(pipe.writePtr) == 0 && o != Nothing ==> o != Blocks || put != []
    {
      hide pipe.Contents;
      var call := blocked[pid];
      put := [];
      if (if call.Writing? then pipe.writeLock else pipe.readLock) == 0 {
        return Nothing, [];
      }
      pipe.HowMany();
      if call.Writing? {
        pipe.writeLock := pipe.writeLock - 1;
        if pipe.readUsage == 0 {
          blocked := blocked - {pid};
          return Broken, [];
        }
      } else {
        pipe.readLock := pipe.readLock - 1;
        if pipe.writePtr == pipe.readPtr && pipe.writeUsage == 0 {
          blocked := blocked - {pid};
          return Got([]), [];
        }
      }
      o, put := Serve(pid, call, false, spare);
    }

    /** A new call. */
    method Begin(pid: nat, call: Call, nonBlock: bool, spare: bool, ghost r: nat, ghost w: nat)
      returns (o: Outcome, put: seq<byte>)
      requires Valid() && UnderWay(call) && pid !in blocked
      modifies `blocked, pipe`readPtr, pipe`writePtr, pipe`readLock, pipe`writeLock, pipe.buffer
      ensures Valid() && Ran(old(blocked), Open(), pid, call, nonBlock, o, put, blocked)
      ensures call != Reading(0) ==> old(pipe.Contents()) + put == Out(o) + pipe.Contents()
      ensures old(Calm(r, w)) && (if call.Reading? then pid == r else pid == w && call.data != []) ==> Calm(r, w)
      ensures old(Stuck(r)) && call.Reading? ==> Stuck(r)
    {
      hide pipe.Contents, Accepts;
      o, put := Serve(pid, call, nonBlock, spare);
    }

    /** The first read behind the end of the file on which nobody waits. */
    method ReadPastEnd(pid: nat) returns (o: Outcome)
      requires Valid() && blocked == map[] && pipe.writeUsage == 0 && pipe.readLock == 0
      requires pipe.readPtr == pipe.writePtr
      modifies `blocked, pipe`readPtr, pipe`writePtr, pipe`readLock, pipe`writeLock, pipe.buffer
      ensures Valid() && o == Blocks && Stuck(pid)
    {
      hide pipe.Contents, Accepts;
      var put;
      o, put := Serve(pid, Reading(1), false, true);
    }

    /** One step. */
    method Step(e: Event, ghost r: nat, ghost w: nat) returns (o: Outcome, put: seq<byte>)
      requires Valid()
      modifies this, pipe, pipe.buffer
      ensures Valid() && Moves(old(blocked), old(Open()), e, o, put, blocked) && Turns(old(Open()), e, Open())
      ensures old(Busy()) && !AsksNothing(e) ==>
        Busy() && old(pipe.Contents()) + put == Out(o) + pipe.Contents()
      ensures old(Calm(r, w)) && OnlyPair(e, r, w) ==> Calm(r, w)
      ensures old(Stuck(r)) && NoWriter(e, r) ==> Stuck(r)
    {
      hide pipe.Contents, Accepts, Goes;
      o, put := Nothing, [];
      assert pipe.Contents() + [] == [] + pipe.Contents();
      match e
      case Write(pid, data, nonBlock) =>
        if pid !in blocked {
          o, put := Begin(pid, Writing(data, 0), nonBlock, false, r, w);
        }
      case Read(pid, count, nonBlock, spare) =>
        if pid !in blocked {
          o, put := Begin(pid, Reading(count), nonBlock, spare, r, w);
        }
      case Wake(pid, spare) =>
        if pid in blocked {
          o, put := Resume(pid, spare, r, w);
        }
      case _ =>
        o := Change(e, r, w);
    }

    /** A step that runs no call: an interruption, an open or a close. */
    method Change(e: Event, ghost r: nat, ghost w: nat) returns (o: Outcome)
      requires Valid() && !e.Write? && !e.Read? && !e.Wake?
      modifies this`blocked, pipe`readUsage, pipe`writeUsage, pipe`readLock, pipe`writeLock
      ensures Valid() && Moves(old(blocked), old(Open()), e, o, [], blocked) && !o.Got?
      ensures Turns(old(Open()), e, Open())
      ensures (old(Busy()) ==> Busy()) && pipe.Contents() == old(pipe.Contents())
      ensures old(Calm(r, w)) && OnlyPair(e, r, w) ==> Calm(r, w)
      ensures old(Stuck(r)) && NoWriter(e, r) ==> Stuck(r)
    {
      hide pipe.Contents, Accepts, Goes, Ran;
      o := Nothing;
      match e
      case Interrupt(pid) =>
        if pid in blocked {
          blocked := blocked - {pid};
          o := Interrupted;
        }
      case OpenRead =>
        pipe.readUsage := pipe.readUsage + 1;
      case OpenWrite =>
        pipe.writeUsage := pipe.writeUsage + 1;
      case CloseRead =>
        if pipe.readUsage > 0 {
          pipe.CloseRead();
        }
      case CloseWrite =>
        if pipe.writeUsage > 0 {
          pipe.CloseWrite();
        }
    }

    /**
     Every run, whatever its readers and writers do, up to a write that runs past its
     data: the bytes delivered and the bytes in the pipe are the bytes put in, one
     after the other, and what was put in are the calls' own data, writes of at most
     SIZE bytes in one piece. With one reader and one writer no wake-up is lost.
     */
    method Run(events: seq<Event>, ghost r: nat, ghost w: nat)
      returns (done: nat, outs: seq<Outcome>, puts: seq<seq<byte>>, ghost bs: seq<map<nat, Call>>, ghost us: seq<Ends>)
      requires Valid()
      modifies this, pipe, pipe.buffer
      ensures Valid() && done <= |events| && Traced(events[..done], outs, puts, bs, us)
      ensures bs[0] == old(blocked) && bs[done] == blocked && us[0] == old(Open()) && us[done] == Open()
      ensures done < |events| ==> done > 0 && outs[done - 1] == Overrun
      ensures old(Busy()) && (forall i :: 0 <= i < |events| ==> !AsksNothing(events[i])) ==>
        old(pipe.Contents()) + Joined(puts) == Taken(outs) + pipe.Contents()
      ensures old(Calm(r, w)) && (forall i :: 0 <= i < |events| ==> OnlyPair(events[i], r, w)) ==> Calm(r, w)
      ensures old(Stuck(r)) && (forall i :: 0 <= i < |events| ==> NoWriter(events[i], r)) ==> Stuck(r)
    {
      hide Calm, OnlyPair, Moves, Turns, Stuck, NoWriter, AsksNothing, pipe.Contents;
      done, outs, puts, bs, us := 0, [], [], [blocked], [Open()];
      ghost var start := pipe.Contents();
      assert start + [] == [] + start;
      while done < |events|
        invariant 0 <= done <= |events| && Valid() && Traced(events[..done], outs, puts, bs, us)
        invariant bs[0] == old(blocked) && bs[done] == blocked && us[0] == old(Open()) && us[done] == Open()
        invariant old(Busy()) && (forall i :: 0 <= i < |events| ==> !AsksNothing(events[i])) ==>
          Busy() && start + Joined(puts) == Taken(outs) + pipe.Contents()
        invariant old(Calm(r, w)) && (forall i :: 0 <= i < |events| ==> OnlyPair(events[i], r, w)) ==> Calm(r, w)
        invariant old(Stuck(r)) && (forall i :: 0 <= i < |events| ==> NoWriter(events[i], r)) ==> Stuck(r)
      {
        ghost var had := pipe.Contents();
        var o, put := Step(events[done], r, w);
        TracedMore(events, outs, puts, bs, us, done, o, put, blocked, Open());
        Conserved(start, outs, puts, o, put, had, pipe.Contents());
        outs, puts, bs, us, done := outs + [o], puts + [put], bs + [blocked], us + [Open()], done + 1;
        if o == Overrun {
          return;
        }
      }
    }

    /** With one reader and one writer there is no deadlock: if both wait, one of them can be woken. */
    lemma NoDeadlock(r: nat, w: nat)
      requires Valid() && Calm(r, w) && r in blocked && w in blocked
      ensures pipe.readLock > 0 || pipe.writeLock > 0
    {
    }

    /** If both wait, two wake-ups are enough to end a call or to move bytes. */
    method Progress(r: nat, w: nat, spare: bool)
      returns (first: Outcome, second: Outcome, put: seq<byte>)
      requires Valid() && Calm(r, w) && r in blocked && w in blocked
      modifies this, pipe, pipe.buffer
      ensures Valid() && Calm(r, w)
      ensures !(first in {Blocks, Nothing}) || !(second in {Blocks, Nothing}) || put != []
      ensures |old(blocked[w]).data| <= SIZE ==> !(first in {Blocks, Nothing}) || !(second in {Blocks, Nothing})
    {
      NoDeadlock(r, w);
      second, put := Nothing, [];
      if pipe.readLock > 0 {
        first, put := Resume(r, spare, r, w);
        second, put := Resume(w, spare, r, w);
      } else {
        first, put := Resume(w, spare, r, w);
      }
    }

    /** A long write waits on a full pipe. */
    ghost predicate Full(w: nat, data: seq<byte>, pos: nat)
      reads this, pipe
    {
      && Valid() && |data| > SIZE && w in blocked && blocked[w] == Writing(data, pos) && pos < |data|
      && pipe.readPtr == 0 && pipe.writePtr == SIZE && pipe.readUsage > 0
    }

    /** A reader makes room and the writer is woken. The write advances, but never to its exact end. */
    method DrainAndWake(w: nat, data: seq<byte>, pos: nat) returns (o: Outcome, put: seq<byte>)
      requires Full(w, data, pos)
      modifies this, pipe, pipe.buffer
      ensures o == Overrun || (o == Blocks && put != [] && Full(w, data, pos + |put|))
    {
      hide pipe.Contents;
      pipe.HowMany();
      var n := if |data| - pos == SIZE then 1 else SIZE;
      var got := pipe.ReadLoop(n, true, true);
      pipe.HowMany();
      o, put := Resume(w, true, 0, 0);
    }

    /**
     The end of file is reported once. On an empty pipe whose last writer closes, a
     first blocking read returns, and a second one waits, whatever happens, until a
     writer comes or the reader is interrupted.
     */
    method EofOnce(pid: nat, events: seq<Event>) returns (first: Outcome, second: Outcome, waits: bool)
      requires Valid() && blocked == map[] && pipe.writeUsage == 1 && pipe.readLock == 0
      requires pipe.readPtr == pipe.writePtr
      requires forall i :: 0 <= i < |events| ==> NoWriter(events[i], pid)
      modifies this, pipe, pipe.buffer
      ensures first == Got([]) && second == Blocks && waits
    {
      hide pipe.Contents, Traced, NoWriter, AsksNothing, OnlyPair;
      pipe.HowMany();
      pipe.CloseWrite();
      first := pipe.ReadLoop(1, false, true);
      pipe.HowMany();
      second := ReadPastEnd(pid);
      var done, outs, puts, bs, us := Run(events, pid, pid);
      waits := pid in blocked;
    }

    /** The last reader's close wakes a waiting writer, and what it finds is EPIPE. */
    method ReadersGone(w: nat) returns (o: Outcome)
      requires Valid() && w in blocked && blocked[w].Writing? && pipe.readUsage == 1
      modifies this, pipe, pipe.buffer
      ensures Valid() && o == Broken && w !in blocked
    {
      pipe.CloseRead();
      ghost var put;
      o, put := Resume(w, false, 0, 0);
    }

    /** The last writer's close wakes a waiting reader of an empty pipe, and what it finds is the end of the file. */
    method WritersGone(r: nat) returns (o: Outcome)
      requires Valid() && r in blocked && blocked[r].Reading? && pipe.writeUsage == 1 && pipe.Contents() == []
      modifies this, pipe, pipe.buffer
      ensures Valid() && o == Got([]) && r !in blocked
    {
      pipe.CloseWrite();
      ghost var put;
      o, put := Resume(r, false, 0, 0);
    }
  }

  lemma Conserved(start: seq<byte>, outs: seq<Outcome>, puts: seq<seq<byte>>, o: Outcome, put: seq<byte>,
                  had: seq<byte>, has: seq<byte>)
    ensures start + Joined(puts) == Taken(outs) + had && had + put == Out(o) + has ==>
      start + Joined(puts + [put]) == Taken(outs + [o]) + has
  {
    assert (outs + [o])[..|outs|] == outs && (puts + [put])[..|puts|] == puts;
    Regroup(start, Joined(puts), put);
    Regroup(Taken(outs), had, put);
    Regroup(Taken(outs), Out(o), has);
  }

  lemma Regroup(a: seq<byte>, b: seq<byte>, c: seq<byte>)
    ensures (a + b) + c == a + (b + c)
  {
  }

  /**
   Every write longer than the buffer can run past its data: a reader that drains the
   pipe each time, but takes a single byte when the write would come out even.
   */
  method LongWriteOverruns(data: seq<byte>) returns (o: Outcome)
    requires |data| > SIZE
    ensures o == Overrun
  {
    var pipe := new Pipe();
    pipe.readUsage, pipe.writeUsage := 1, 1;
    var sys := new System(pipe);
    var put;
    o, put := sys.Serve(0, Writing(data, 0), false, false);
    var pos := |put|;
    while o == Blocks
      invariant o == Overrun || o == Blocks
      invariant o == Blocks ==> sys.Full(0, data, pos)
      invariant fresh(sys) && fresh(pipe) && fresh(pipe.buffer) && sys.pipe == pipe
      decreases if o == Blocks then |data| - pos else -1
    {
      o, put := sys.DrainAndWake(0, data, pos);
      pos := pos + |put|;
    }
  }

  lemma TakenPrefix(had: seq<byte>, count: nat, has: seq<byte>, o: Outcome)
    requires var n := if count < |had| then count else |had|; n > 0 ==> o == Got(had[..n]) && has == had[n..]
    requires count == 0 || had == [] ==> has == [] && Out(o) == []
    ensures had + [] == Out(o) + has <==> !(count == 0 && had != [])
  {
    assert had + [] == had;
    var n := if count < |had| then count else |had|;
    if n > 0 {
      assert had == had[..n] + had[n..];
    }
  }
}
