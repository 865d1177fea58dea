/**
 Descriptor tables and stream reference counts (kernel/streams.c), for any number
 of processes, over pipes (kernel/pipe.c). Streams and pipes are named by the
 addresses the heap gave them, and no address is given out twice, so that the log
 of freed names shows a second free.
 */
module Streams {

  /** stream_ptr: a descriptor. */
  datatype Fd = Fd(id: nat, info: nat, cloexec: bool)

  datatype Process = Process(fds: seq<Fd>, fdCtr: nat)

  /** stream_info of a pipe end. */
  datatype Stream = Stream(refs: nat, pipe: nat, writer: bool)

  /** The usage counts of a pipe. */
  datatype Usage = Usage(readers: nat, writers: nat)

  // ---------- counting descriptors ----------

  /** How many descriptors of a table point to stream `s`. */
  ghost function Count(fds: seq<Fd>, s: nat): nat {
    if fds == [] then 0 else Count(fds[..|fds| - 1], s) + if fds[|fds| - 1].info == s then 1 else 0
  }

  /** How many descriptors of all processes point to stream `s`. */
  ghost function Refs(procs: seq<Process>, s: nat): nat {
    if procs == [] then 0 else Refs(procs[..|procs| - 1], s) + Count(procs[|procs| - 1].fds, s)
  }

  lemma CountAdd(fds: seq<Fd>, fd: Fd, s: nat)
    ensures Count(fds + [fd], s) == Count(fds, s) + if fd.info == s then 1 else 0
  {
  }

  function Cut(fds: seq<Fd>, k: nat): seq<Fd>
    requires k < |fds|
  {
    fds[..k] + fds[k + 1..]
  }

  lemma {:induction false} CountCut(fds: seq<Fd>, k: nat, s: nat)
    requires k < |fds|
    ensures Count(fds, s) == Count(Cut(fds, k), s) + if fds[k].info == s then 1 else 0
  {
    var n := |fds| - 1;
    if k == n {
      assert Cut(fds, k) == fds[..n];
    } else {
      CountCut(fds[..n], k, s);
      assert Cut(fds, k)[..n - 1] == Cut(fds[..n], k);
    }
  }

  lemma {:induction false} RefsSet(procs: seq<Process>, p: nat, q: Process, s: nat)
    requires p < |procs|
    ensures Refs(procs[p := q], s) == Refs(procs, s) - Count(procs[p].fds, s) + Count(q.fds, s)
    ensures Refs(procs, s) >= Count(procs[p].fds, s)
  {
    var n := |procs| - 1;
    if p == n {
      assert procs[p := q][..n] == procs[..n];
    } else {
      RefsSet(procs[..n], p, q, s);
      assert procs[p := q][..n] == procs[..n][p := q];
    }
  }

  // ---------- the invariants ----------

  /** Descriptors of a process are unique and below its counter. */
  ghost predicate Table(q: Process) {
    && (forall k :: 0 <= k < |q.fds| ==> q.fds[k].id < q.fdCtr)
    && (forall k, l :: 0 <= k < l < |q.fds| ==> q.fds[k].id != q.fds[l].id)
  }

  ghost predicate Tables(procs: seq<Process>) {
    forall p :: 0 <= p < |procs| ==> Table(procs[p])
  }

  /** Reference counts are right: a stream lives exactly as long as some descriptor points to it. */
  ghost predicate Counted(procs: seq<Process>, streams: map<nat, Stream>) {
    && (forall s: nat :: Refs(procs, s) == if s in streams then streams[s].refs else 0)
    && (forall s: nat :: s in streams ==> streams[s].refs > 0)
  }

  /** The live streams that are one kind of end of a pipe. */
  ghost function Ends(streams: map<nat, Stream>, pipe: nat, writer: bool): set<nat> {
    set s | s in streams && streams[s].pipe == pipe && streams[s].writer == writer
  }

  ghost function Tally(streams: map<nat, Stream>, pipe: nat, writer: bool): nat {
    |Ends(streams, pipe, writer)|
  }

  /** Usage counts are right: a pipe lives exactly as long as some stream is an end of it. */
  ghost predicate Used(streams: map<nat, Stream>, pipes: map<nat, Usage>) {
    && (forall p: nat :: Tally(streams, p, false) == if p in pipes then pipes[p].readers else 0)
    && (forall p: nat :: Tally(streams, p, true) == if p in pipes then pipes[p].writers else 0)
    && (forall p: nat :: p in pipes ==> pipes[p].readers + pipes[p].writers > 0)
  }

  /** Everything made is either live or freed, and nothing was freed twice. */
  ghost predicate Logged(live: set<nat>, freed: seq<nat>, next: nat) {
    && (forall i, j :: 0 <= i < j < |freed| ==> freed[i] != freed[j])
    && (forall x: nat :: x in live ==> x < next && x !in freed)
    && (forall x: nat :: x in freed ==> x < next)
    && (forall x: nat :: x < next ==> x in live || x in freed)
  }

  // ---------- what the steps do to them ----------

  function WithFd(q: Process, fd: Fd): Process {
    Process(q.fds + [fd], if fd.id >= q.fdCtr then fd.id + 1 else q.fdCtr)
  }

  lemma CountedAdd(procs: seq<Process>, streams: map<nat, Stream>, p: nat, fd: Fd)
    requires Counted(procs, streams) && p < |procs| && fd.info in streams
    ensures Counted(procs[p := WithFd(procs[p], fd)],
                    streams[fd.info := streams[fd.info].(refs := streams[fd.info].refs + 1)])
  {
    forall s: nat
      ensures Refs(procs[p := WithFd(procs[p], fd)], s) == Refs(procs, s) + if fd.info == s then 1 else 0
    {
      RefsSet(procs, p, WithFd(procs[p], fd), s);
      CountAdd(procs[p].fds, fd, s);
    }
  }

  lemma CountedOpen(procs: seq<Process>, streams: map<nat, Stream>, p: nat, fd: Fd, stream: Stream)
    requires Counted(procs, streams) && p < |procs| && fd.info !in streams && stream.refs == 1
    ensures Counted(procs[p := WithFd(procs[p], fd)], streams[fd.info := stream])
  {
    forall s: nat
      ensures Refs(procs[p := WithFd(procs[p], fd)], s) == Refs(procs, s) + if fd.info == s then 1 else 0
    {
      RefsSet(procs, p, WithFd(procs[p], fd), s);
      CountAdd(procs[p].fds, fd, s);
    }
  }

  lemma CountedCounter(procs: seq<Process>, streams: map<nat, Stream>, p: nat, ctr: nat)
    requires Counted(procs, streams) && p < |procs|
    ensures Counted(procs[p := procs[p].(fdCtr := ctr)], streams)
  {
    forall s: nat
      ensures Refs(procs[p := procs[p].(fdCtr := ctr)], s) == Refs(procs, s)
    {
      RefsSet(procs, p, procs[p].(fdCtr := ctr), s);
    }
  }

  lemma CountedFork(procs: seq<Process>, streams: map<nat, Stream>, ctr: nat)
    requires Counted(procs, streams)
    ensures Counted(procs + [Process([], ctr)], streams)
  {
  }

  /** The streams after one descriptor of `s` is gone. */
  function Dropped(streams: map<nat, Stream>, s: nat): map<nat, Stream>
    requires s in streams && streams[s].refs > 0
  {
    if streams[s].refs == 1 then streams - {s} else streams[s := streams[s].(refs := streams[s].refs - 1)]
  }

  lemma CountedClose(procs: seq<Process>, streams: map<nat, Stream>, p: nat, k: nat)
    requires Counted(procs, streams) && p < |procs| && k < |procs[p].fds|
    ensures procs[p].fds[k].info in streams
    ensures Counted(procs[p := procs[p].(fds := Cut(procs[p].fds, k))], Dropped(streams, procs[p].fds[k].info))
  {
    var t := procs[p].fds[k].info;
    var q := procs[p].(fds := Cut(procs[p].fds, k));
    forall s: nat
      ensures Refs(procs, s) == Refs(procs[p := q], s) + if t == s then 1 else 0
    {
      RefsSet(procs, p, q, s);
      CountCut(procs[p].fds, k, s);
    }
  }

  lemma TablesClose(procs: seq<Process>, p: nat, k: nat)
    requires Tables(procs) && p < |procs| && k < |procs[p].fds|
    ensures Tables(procs[p := procs[p].(fds := Cut(procs[p].fds, k))])
  {
  }

  lemma CountedRefs(procs: seq<Process>, streams: map<nat, Stream>, s: nat)
    requires Counted(procs, streams)
    ensures Refs(procs, s) == if s in streams then streams[s].refs else 0
    ensures s in streams ==> streams[s].refs > 0
  {
  }

  lemma UsedRefs(streams: map<nat, Stream>, pipes: map<nat, Usage>, s: nat, refs: nat)
    requires Used(streams, pipes) && s in streams
    ensures Used(streams[s := streams[s].(refs := refs)], pipes)
  {
    forall p: nat, w: bool
      ensures Tally(streams[s := streams[s].(refs := refs)], p, w) == Tally(streams, p, w)
    {
      assert Ends(streams[s := streams[s].(refs := refs)], p, w) == Ends(streams, p, w);
    }
  }

  function Opened(u: Usage, writer: bool): Usage {
    if writer then u.(writers := u.writers + 1) else u.(readers := u.readers + 1)
  }

  lemma UsedOpen(streams: map<nat, Stream>, pipes: map<nat, Usage>, s: nat, stream: Stream)
    requires Used(streams, pipes) && s !in streams
    ensures var u := if stream.pipe in pipes then pipes[stream.pipe] else Usage(0, 0);
      Used(streams[s := stream], pipes[stream.pipe := Opened(u, stream.writer)])
  {
    hide Tally;
    forall p: nat, w: bool {
      TallyOpen(streams, s, stream, p, w);
    }
  }

  lemma TallyClose(streams: map<nat, Stream>, s: nat, p: nat, w: bool)
    requires s in streams
    ensures Tally(streams, p, w) ==
      Tally(streams - {s}, p, w) + if streams[s].pipe == p && streams[s].writer == w then 1 else 0
  {
    assert Ends(streams - {s}, p, w) == Ends(streams, p, w) - {s};
  }

  lemma TallyOpen(streams: map<nat, Stream>, s: nat, stream: Stream, p: nat, w: bool)
    requires s !in streams
    ensures Tally(streams[s := stream], p, w) ==
      Tally(streams, p, w) + if stream.pipe == p && stream.writer == w then 1 else 0
  {
    assert streams[s := stream] - {s} == streams;
    TallyClose(streams[s := stream], s, p, w);
  }

  function Closed(u: Usage, writer: bool): Usage
    requires if writer then u.writers > 0 else u.readers > 0
  {
    if writer then u.(writers := u.writers - 1) else u.(readers := u.readers - 1)
  }

  lemma UsedEnd(streams: map<nat, Stream>, pipes: map<nat, Usage>, s: nat)
    requires Used(streams, pipes) && s in streams
    ensures streams[s].pipe in pipes
    ensures if streams[s].writer then pipes[streams[s].pipe].writers > 0 else pipes[streams[s].pipe].readers > 0
  {
    TallyClose(streams, s, streams[s].pipe, streams[s].writer);
  }

  /** The pipes after the stream `t` is gone. */
  function Left(pipes: map<nat, Usage>, t: Stream): map<nat, Usage>
    requires t.pipe in pipes
    requires if t.writer then pipes[t.pipe].writers > 0 else pipes[t.pipe].readers > 0
  {
    var u := Closed(pipes[t.pipe], t.writer);
    if u.readers + u.writers != 0 then pipes[t.pipe := u] else pipes - {t.pipe}
  }

  lemma UsedClose(streams: map<nat, Stream>, pipes: map<nat, Usage>, s: nat)
    requires Used(streams, pipes) && s in streams
    ensures streams[s].pipe in pipes
    ensures if streams[s].writer then pipes[streams[s].pipe].writers > 0 else pipes[streams[s].pipe].readers > 0
    ensures Used(streams - {s}, Left(pipes, streams[s]))
  {
    hide Tally;
    UsedEnd(streams, pipes, s);
    forall p: nat, w: bool {
      TallyClose(streams, s, p, w);
    }
  }

  lemma UsedAlive(streams: map<nat, Stream>, pipes: map<nat, Usage>, p: nat)
    requires Used(streams, pipes)
    ensures p in pipes <==> Ends(streams, p, false) + Ends(streams, p, true) != {}
  {
  }

  lemma LoggedFree(live: set<nat>, freed: seq<nat>, next: nat, x: nat)
    requires Logged(live, freed, next) && x in live
    ensures Logged(live - {x}, freed + [x], next)
  {
  }

  lemma LoggedMake(live: set<nat>, freed: seq<nat>, next: nat)
    requires Logged(live, freed, next)
    ensures Logged(live + {next}, freed, next + 1)
  {
  }

  /** The descriptors that survive an exec. */
  ghost function Kept(fds: seq<Fd>): seq<Fd> {
    if fds == [] then [] else (if fds[0].cloexec then [] else [fds[0]]) + Kept(fds[1..])
  }

  /** Exactly the descriptors without the flag are kept. */
  lemma {:induction false} KeptExactly(fds: seq<Fd>, fd: Fd)
    ensures fd in Kept(fds) <==> fd in fds && !fd.cloexec
    ensures forall l :: 0 <= l < |Kept(fds)| ==> !Kept(fds)[l].cloexec
  {
    if fds != [] {
      KeptExactly(fds[1..], fd);
      assert fds == [fds[0]] + fds[1..];
    }
  }

  /** They are kept in their order. */
  lemma {:induction false} KeptInOrder(a: seq<Fd>, b: seq<Fd>)
    ensures Kept(a + b) == Kept(a) + Kept(b)
  {
    if a == [] {
      assert a + b == b;
    } else {
      KeptInOrder(a[1..], b);
      assert (a + b)[1..] == a[1..] + b;
      var x := if a[0].cloexec then [] else [a[0]];
      assert x + (Kept(a[1..]) + Kept(b)) == (x + Kept(a[1..])) + Kept(b);
    }
  }

  lemma {:induction false} KeptCut(fds: seq<Fd>, k: nat)
    requires k < |fds| && fds[k].cloexec
    ensures Kept(Cut(fds, k)) == Kept(fds)
  {
    if k == 0 {
      assert Cut(fds, 0) == fds[1..];
    } else {
      KeptCut(fds[1..], k - 1);
      assert Cut(fds, k)[1..] == Cut(fds[1..], k - 1);
    }
  }

  lemma {:induction false} KeptAll(fds: seq<Fd>)
    requires forall k :: 0 <= k < |fds| ==> !fds[k].cloexec
    ensures Kept(fds) == fds
  {
    if fds != [] {
      KeptAll(fds[1..]);
    }
  }

  /** The descriptors other than `id`. */
  ghost function Others(fds: seq<Fd>, id: int): seq<Fd> {
    if fds == [] then [] else (if fds[0].id == id then [] else [fds[0]]) + Others(fds[1..], id)
  }

  lemma {:induction false} OthersNone(fds: seq<Fd>, id: int)
    requires forall k :: 0 <= k < |fds| ==> fds[k].id != id
    ensures Others(fds, id) == fds
  {
    if fds != [] {
      OthersNone(fds[1..], id);
    }
  }

  lemma {:induction false} OthersCut(fds: seq<Fd>, k: nat)
    requires k < |fds| && forall i, j :: 0 <= i < j < |fds| ==> fds[i].id != fds[j].id
    ensures Others(fds, fds[k].id) == Cut(fds, k)
  {
    if k == 0 {
      OthersNone(fds[1..], fds[0].id);
      assert Cut(fds, 0) == fds[1..];
    } else {
      OthersCut(fds[1..], k - 1);
      assert Cut(fds, k) == [fds[0]] + Cut(fds[1..], k - 1);
    }
  }

  lemma TableOthers(procs: seq<Process>, p: nat, k: nat)
    requires Tables(procs) && p < |procs| && k < |procs[p].fds|
    ensures Others(procs[p].fds, procs[p].fds[k].id) == Cut(procs[p].fds, k)
  {
    OthersCut(procs[p].fds, k);
  }

  /** Exactly the descriptors with other numbers stay. */
  lemma {:induction false} OthersExactly(fds: seq<Fd>, id: int, fd: Fd)
    ensures fd in Others(fds, id) <==> fd in fds && fd.id != id
    ensures forall l :: 0 <= l < |Others(fds, id)| ==> Others(fds, id)[l].id != id
  {
    if fds != [] {
      OthersExactly(fds[1..], id, fd);
      assert fds == [fds[0]] + fds[1..];
    }
  }

  /** They stay in their order. */
  lemma {:induction false} OthersInOrder(a: seq<Fd>, b: seq<Fd>, id: int)
    ensures Others(a + b, id) == Others(a, id) + Others(b, id)
  {
    if a == [] {
      assert a + b == b;
    } else {
      OthersInOrder(a[1..], b, id);
      assert (a + b)[1..] == a[1..] + b;
      var x := if a[0].id == id then [] else [a[0]];
      assert x + (Others(a[1..], id) + Others(b, id)) == (x + Others(a[1..], id)) + Others(b, id);
    }
  }

  lemma CountedInfo(procs: seq<Process>, streams: map<nat, Stream>, p: nat, k: nat)
    requires Counted(procs, streams) && p < |procs| && k < |procs[p].fds|
    ensures procs[p].fds[k].info in streams
  {
    CountedClose(procs, streams, p, k);
  }

  lemma TablesAdd(procs: seq<Process>, p: nat, fd: Fd)
    requires Tables(procs) && p < |procs| && forall k :: 0 <= k < |procs[p].fds| ==> procs[p].fds[k].id != fd.id
    ensures Tables(procs[p := WithFd(procs[p], fd)])
  {
  }

  datatype Op =
    | PipeOp(p: nat, cloexec: bool, flagsOk: bool, alloc: bool)
    | DupOp(p: nat, fd: int, alloc: bool)
    | Dup2Op(p: nat, fd: int, newfd: int, alloc: bool)
    | ForkOp(p: nat, budget: nat)
    | CloseOp(p: nat, fd: int)
    | ExecOp(p: nat)
    | ExitOp(p: nat)

  class Kernel {
    var procs: seq<Process>
    var streams: map<nat, Stream>
    var pipes: map<nat, Usage>

    /** The names the heap gives out next, and the names freed, in order. */
    var nextStream: nat
    var nextPipe: nat
    ghost var freedStreams: seq<nat>
    ghost var freedPipes: seq<nat>

    ghost predicate Valid()
      reads this
    {
      && Tables(procs)
      && Counted(procs, streams)
      && Used(streams, pipes)
      && Logged(streams.Keys, freedStreams, nextStream)
      && Logged(pipes.Keys, freedPipes, nextPipe)
    }

    constructor ()
      ensures Valid() && procs == [Process([], 0)]
    {
      procs, streams, pipes := [Process([], 0)], map[], map[];
      nextStream, nextPipe, freedStreams, freedPipes := 0, 0, [], [];
      new;
      forall s: nat
        ensures Refs(procs, s) == 0
      {
        assert procs[..0] == [];
      }
    }

    /** stream_get_ptr: the place of a descriptor in the table, or -1. */
    method Find(p: nat, fd: int) returns (k: int)
      requires p < |procs|
      ensures k < 0 <==> forall i :: 0 <= i < |procs[p].fds| ==> procs[p].fds[i].id != fd
      ensures k >= 0 ==> k < |procs[p].fds| && procs[p].fds[k].id == fd
    {
      k := -1;
      var i := 0;
      while i < |procs[p].fds|
        invariant 0 <= i <= |procs[p].fds|
        invariant forall j :: 0 <= j < i ==> procs[p].fds[j].id != fd
      {
        if procs[p].fds[i].id == fd {
          return i;
        }
        i := i + 1;
      }
    }

    /**
     The end of _sys_close_int: the last descriptor of a stream is gone, so its pipe is closed and
     the stream freed.
     */
    method Release(s: nat)
      requires s in streams && Used(streams, pipes)
      requires Logged(streams.Keys, freedStreams, nextStream) && Logged(pipes.Keys, freedPipes, nextPipe)
      modifies `streams, `pipes, `freedStreams, `freedPipes
      ensures streams == old(streams) - {s} && freedStreams == old(freedStreams) + [s] && Used(streams, pipes)
      ensures Logged(streams.Keys, freedStreams, nextStream) && Logged(pipes.Keys, freedPipes, nextPipe)
      ensures var p := old(streams[s].pipe);
        freedPipes == old(freedPipes) + if Ends(streams, p, false) + Ends(streams, p, true) == {} then [p] else []
    {
      hide Used, Tally, Ends, Logged;
      UsedClose(streams, pipes, s);
      UsedAlive(streams - {s}, Left(pipes, streams[s]), streams[s].pipe);
      LoggedFree(streams.Keys, freedStreams, nextStream, s);
      LoggedFree(pipes.Keys, freedPipes, nextPipe, streams[s].pipe);
      assert (streams - {s}).Keys == streams.Keys - {s};
      var t := streams[s];
      var u := Closed(pipes[t.pipe], t.writer);
      pipes := pipes[t.pipe := u];
      assert pipes.Keys == old(pipes.Keys);
      if u.readers + u.writers == 0 {
        pipes := pipes - {t.pipe};
        assert pipes.Keys == old(pipes.Keys) - {t.pipe};
        freedPipes := freedPipes + [t.pipe];
      }
      assert pipes == Left(old(pipes), t);
      streams := streams - {s};
      freedStreams := freedStreams + [s];
    }

    /** _sys_close_int. */
    method Close(p: nat, fd: int) returns (st: int, ghost k: int)
      requires Valid() && p < |procs|
      modifies `procs, `streams, `pipes, `freedStreams, `freedPipes
      ensures Valid()
      ensures st != 0 <==> forall i :: 0 <= i < |old(procs)[p].fds| ==> old(procs)[p].fds[i].id != fd
      ensures st != 0 ==> streams == old(streams) && pipes == old(pipes)
      ensures st != 0 ==> freedStreams == old(freedStreams) && freedPipes == old(freedPipes)
      ensures procs == old(procs)[p := old(procs)[p].(fds := Others(old(procs)[p].fds, fd))]
      ensures st == 0 ==> 0 <= k < |old(procs)[p].fds| && old(procs)[p].fds[k].id == fd
      ensures st == 0 ==> var s := old(procs)[p].fds[k].info;
        s in old(streams) && freedStreams == old(freedStreams) + if Refs(procs, s) == 0 then [s] else []
    {
      hide Counted, Used, Logged, Tables, Table, Ends, Refs, Others;
      var found := Find(p, fd);
      k := found;
      if found < 0 {
        OthersNone(procs[p].fds, fd);
        return -1, k;
      }
      TableOthers(procs, p, found);
      CountedClose(procs, streams, p, found);
      TablesClose(procs, p, found);
      var s := procs[p].fds[found].info;
      CountedRefs(procs, streams, s);
      UsedRefs(streams, pipes, s, streams[s].refs - 1);
      procs := procs[p := procs[p].(fds := procs[p].fds[..found] + procs[p].fds[found + 1..])];
      streams := streams[s := streams[s].(refs := streams[s].refs - 1)];
      assert streams.Keys == old(streams.Keys);
      if streams[s].refs == 0 {
        Release(s);
        assert streams == Dropped(old(streams), s);
      }
      CountedRefs(procs, streams, s);
      st := 0;
    }

    /** The new descriptor of dup2 and of fork. */
    method Attach(p: nat, fd: Fd)
      requires Valid() && p < |procs| && fd.info in streams
      requires forall k :: 0 <= k < |procs[p].fds| ==> procs[p].fds[k].id != fd.id
      modifies `procs, `streams
      ensures Valid() && procs == old(procs)[p := WithFd(old(procs)[p], fd)] && streams.Keys == old(streams.Keys)
    {
      hide Counted, Used, Logged, Tables, Table, Ends, Refs;
      CountedAdd(procs, streams, p, fd);
      TablesAdd(procs, p, fd);
      UsedRefs(streams, pipes, fd.info, streams[fd.info].refs + 1);
      streams := streams[fd.info := streams[fd.info].(refs := streams[fd.info].refs + 1)];
      procs := procs[p := WithFd(procs[p], fd)];
      assert streams.Keys == old(streams.Keys);
    }

    /** stream_claim_fd. */
    method Claim(p: nat, fd: nat)
      requires Valid() && p < |procs|
      modifies `procs
      ensures Valid()
      ensures procs == old(procs)[p := old(procs)[p].(fdCtr := if fd >= old(procs)[p].fdCtr then fd + 1
                                                               else old(procs)[p].fdCtr)]
    {
      hide Counted, Used, Logged, Ends, Refs;
      if fd >= procs[p].fdCtr {
        CountedCounter(procs, streams, p, fd + 1);
        procs := procs[p := procs[p].(fdCtr := fd + 1)];
      }
    }

    /**
     _sys_dup2. It reads a freed descriptor exactly when it is asked to copy an open
     descriptor onto itself, and closes the new number even if it fails afterwards.
     */
    method Dup2(p: nat, oldfd: int, newfd: int, alloc: bool) returns (st: int, fault: bool, ghost k: int)
      requires Valid() && p < |procs|
      modifies `procs, `streams, `pipes, `freedStreams, `freedPipes
      ensures Valid()
      ensures k >= 0 <==> exists i :: 0 <= i < |old(procs)[p].fds| && old(procs)[p].fds[i].id == oldfd
      ensures k >= 0 ==> k < |old(procs)[p].fds| && old(procs)[p].fds[k].id == oldfd
      ensures fault <==> k >= 0 && newfd >= 0 && oldfd == newfd
      ensures !fault ==> (st == newfd >= 0 <==> k >= 0 && newfd >= 0 && alloc) && (st != newfd ==> st == -1)
      ensures !fault && st >= 0 ==> procs == old(procs)[p :=
        WithFd(old(procs)[p].(fds := Others(old(procs)[p].fds, newfd)), Fd(newfd, old(procs)[p].fds[k].info, false))]
      ensures !fault && st < 0 && k >= 0 && newfd >= 0 ==> procs == old(procs)[p :=
        Process(Others(old(procs)[p].fds, newfd),
                if newfd >= old(procs)[p].fdCtr then newfd + 1 else old(procs)[p].fdCtr)]
      ensures k < 0 || newfd < 0 ==> procs == old(procs) && streams == old(streams) && pipes == old(pipes)
    {
      hide Counted, Used, Logged, Tables, Table, Ends, Refs, Others;
      fault := false;
      var found := Find(p, oldfd);
      k := found;
      if found < 0 || newfd < 0 {
        return -1, false, k;
      }
      var oldptr := procs[p].fds[found];
      OthersExactly(procs[p].fds, newfd, oldptr);
      var n := Find(p, newfd);
      if n >= 0 {
        var closed, at := Close(p, newfd);
      } else {
        OthersNone(procs[p].fds, newfd);
      }
      // what follows reads the old descriptor: is it still there?
      if oldptr !in procs[p].fds {
        return -1, true, k;
      }
      ghost var l :| 0 <= l < |procs[p].fds| && procs[p].fds[l] == oldptr;
      CountedInfo(procs, streams, p, l);
      Claim(p, newfd);
      if !alloc {
        return -1, false, k;
      }
      Attach(p, Fd(newfd, oldptr.info, false));
      st := newfd;
    }

    /** stream_alloc_fd. */
    method AllocFd(p: nat) returns (fd: nat)
      requires Valid() && p < |procs|
      modifies `procs
      ensures Valid() && fd == old(procs)[p].fdCtr && procs == old(procs)[p := old(procs)[p].(fdCtr := fd + 1)]
      ensures forall k :: 0 <= k < |procs[p].fds| ==> procs[p].fds[k].id < fd
    {
      hide Used, Logged, Ends;
      fd := procs[p].fdCtr;
      assert Table(procs[p]);
      Claim(p, fd);
    }

    /** _sys_dup never copies a descriptor onto itself: the new one is above all others. */
    method Dup(p: nat, oldfd: int, alloc: bool) returns (st: int, fault: bool, ghost k: int)
      requires Valid() && p < |procs|
      modifies `procs, `streams, `pipes, `freedStreams, `freedPipes
      ensures Valid()
      ensures k >= 0 <==> exists i :: 0 <= i < |old(procs)[p].fds| && old(procs)[p].fds[i].id == oldfd
      ensures k >= 0 ==> k < |old(procs)[p].fds| && old(procs)[p].fds[k].id == oldfd
      ensures !fault && st == (if k >= 0 && alloc then old(procs)[p].fdCtr else -1)
      ensures st >= 0 ==> procs == old(procs)[p :=
        Process(old(procs)[p].fds + [Fd(st, old(procs)[p].fds[k].info, false)], old(procs)[p].fdCtr + 1)]
    {
      hide Counted, Used, Logged, Tables, Table, Ends, Refs, Others;
      var newfd := AllocFd(p);
      OthersNone(procs[p].fds, newfd);
      st, fault, k := Dup2(p, oldfd, newfd, alloc);
    }

    /** One end of a new pipe. */
    method OpenEnd(p: nat, fd: nat, pipe: nat, writer: bool, cloexec: bool, s: nat)
      requires Valid() && p < |procs| && s == nextStream
      requires pipe in pipes || pipe == nextPipe
      requires forall k :: 0 <= k < |procs[p].fds| ==> procs[p].fds[k].id != fd
      modifies `procs, `streams, `pipes, `nextStream, `nextPipe
      ensures Valid() && procs == old(procs)[p := WithFd(old(procs)[p], Fd(fd, s, cloexec))]
      ensures streams == old(streams)[s := Stream(1, pipe, writer)] && nextStream == old(nextStream) + 1
      ensures pipe in pipes && pipes.Keys == old(pipes.Keys) + {pipe}
    {
      hide Counted, Used, Tables, Table, Ends, Refs;
      CountedOpen(procs, streams, p, Fd(fd, s, cloexec), Stream(1, pipe, writer));
      TablesAdd(procs, p, Fd(fd, s, cloexec));
      UsedOpen(streams, pipes, s, Stream(1, pipe, writer));
      LoggedMake(streams.Keys, freedStreams, nextStream);
      LoggedMake(pipes.Keys, freedPipes, nextPipe);
      var u := if pipe in pipes then pipes[pipe] else Usage(0, 0);
      nextPipe := if pipe in pipes then nextPipe else nextPipe + 1;
      pipes := pipes[pipe := Opened(u, writer)];
      streams := streams[s := Stream(1, pipe, writer)];
      nextStream := nextStream + 1;
      procs := procs[p := WithFd(procs[p], Fd(fd, s, cloexec))];
      assert streams.Keys == old(streams.Keys) + {s} && pipes.Keys == old(pipes.Keys) + {pipe};
    }

    /** _sys_pipe2. `flagsOk` says that no flag but O_CLOEXEC and O_NONBLOCK is set. */
    method Pipe2(p: nat, cloexec: bool, flagsOk: bool, alloc: bool) returns (st: int, r: nat, w: nat)
      requires Valid() && p < |procs|
      modifies `procs, `streams, `pipes, `nextStream, `nextPipe
      ensures Valid() && st == (if alloc && flagsOk then 0 else -1)
      ensures r == old(procs)[p].fdCtr && w == r + 1 && p < |procs| == |old(procs)| && procs[p].fdCtr == w + 1
      ensures forall q :: 0 <= q < |procs| && q != p ==> procs[q] == old(procs)[q]
      ensures st != 0 ==> procs[p].fds == old(procs)[p].fds && streams == old(streams) && pipes == old(pipes)
      ensures st == 0 ==> var s := old(nextStream); var pipe := old(nextPipe);
        && s !in old(streams) && s + 1 !in old(streams) && pipe !in old(pipes)
        && procs[p].fds == old(procs)[p].fds + [Fd(r, s, cloexec), Fd(w, s + 1, cloexec)]
        && streams == old(streams)[s := Stream(1, pipe, false)][s + 1 := Stream(1, pipe, true)]
        && pipes.Keys == old(pipes.Keys) + {pipe}
    {
      hide Counted, Used, Tables, Table, Ends, Refs, Others;
      r := AllocFd(p);
      w := AllocFd(p);
      if !alloc || !flagsOk {
        return -1, r, w;
      }
      var pipe, s := nextPipe, nextStream;
      OpenEnd(p, r, pipe, false, cloexec, s);
      OpenEnd(p, w, pipe, true, cloexec, s + 1);
      st := 0;
    }

    /** The copy of a table in fork: at most `budget` descriptors find memory, and the rest are not copied. */
    method Fork(p: nat, budget: nat) returns (child: nat)
      requires Valid() && p < |procs|
      modifies `procs, `streams
      ensures Valid() && child == |old(procs)| && streams.Keys == old(streams.Keys)
      ensures |procs| == child + 1 && procs[..child] == old(procs) && procs[child].fdCtr == procs[p].fdCtr
      ensures |procs[child].fds| == if budget < |procs[p].fds| then budget else |procs[p].fds|
      ensures forall i :: 0 <= i < |procs[child].fds| ==> procs[child].fds[i] == procs[p].fds[i].(cloexec := false)
    {
      hide Counted, Used, Logged, Ends, Refs;
      child := |procs|;
      ghost var parent := procs[p];
      assert Table(parent);
      CountedFork(procs, streams, procs[p].fdCtr);
      procs := procs + [Process([], procs[p].fdCtr)];
      var i := 0;
      while i < |procs[p].fds| && i < budget
        invariant |procs| == child + 1 && procs[p] == parent && 0 <= i <= |parent.fds| && i <= budget
        invariant Valid() && procs[..child] == old(procs) && streams.Keys == old(streams.Keys)
        invariant |procs[child].fds| == i && procs[child].fdCtr == parent.fdCtr
        invariant forall j :: 0 <= j < i ==> procs[child].fds[j] == parent.fds[j].(cloexec := false)
      {
        CountedInfo(procs, streams, p, i);
        Attach(child, procs[p].fds[i].(cloexec := false));
        i := i + 1;
      }
    }

    /** stream_do_close_on_exec: exactly the descriptors without the flag are left, in their order. */
    method CloseOnExec(p: nat)
      requires Valid() && p < |procs|
      modifies `procs, `streams, `pipes, `freedStreams, `freedPipes
      ensures Valid() && procs == old(procs)[p := old(procs)[p].(fds := Kept(old(procs)[p].fds))]
    {
      hide Counted, Used, Logged, Tables, Table, Ends, Refs, Others, Kept;
      var k := FindFlagged(p);
      while k >= 0
        invariant Valid() && |procs| == |old(procs)| && procs == old(procs)[p := old(procs)[p].(fds := procs[p].fds)]
        invariant Kept(procs[p].fds) == Kept(old(procs)[p].fds)
        invariant k >= 0 ==> k < |procs[p].fds| && procs[p].fds[k].cloexec
        invariant k < 0 ==> forall i :: 0 <= i < |procs[p].fds| ==> !procs[p].fds[i].cloexec
        decreases |procs[p].fds|
      {
        TableOthers(procs, p, k);
        KeptCut(procs[p].fds, k);
        var st, at := Close(p, procs[p].fds[k].id);
        k := FindFlagged(p);
      }
      KeptAll(procs[p].fds);
    }

    method FindFlagged(p: nat) returns (k: int)
      requires p < |procs|
      ensures k < 0 ==> forall i :: 0 <= i < |procs[p].fds| ==> !procs[p].fds[i].cloexec
      ensures k >= 0 ==> k < |procs[p].fds| && procs[p].fds[k].cloexec
    {
      k := 0;
      while k < |procs[p].fds|
        invariant 0 <= k <= |procs[p].fds|
        invariant forall i :: 0 <= i < k ==> !procs[p].fds[i].cloexec
      {
        if procs[p].fds[k].cloexec {
          return;
        }
        k := k + 1;
      }
      k := -1;
    }

    /** stream_do_close_all. */
    method CloseAll(p: nat)
      requires Valid() && p < |procs|
      modifies `procs, `streams, `pipes, `freedStreams, `freedPipes
      ensures Valid() && procs == old(procs)[p := old(procs)[p].(fds := [])]
    {
      hide Counted, Used, Logged, Tables, Table, Ends, Refs, Others;
      while procs[p].fds != []
        invariant Valid() && |procs| == |old(procs)| && procs == old(procs)[p := old(procs)[p].(fds := procs[p].fds)]
        decreases |procs[p].fds|
      {
        TableOthers(procs, p, 0);
        var st, at := Close(p, procs[p].fds[0].id);
      }
    }

    /** The call copies an open descriptor onto itself. */
    ghost predicate CopiesOntoItself(op: Op)
      reads this
    {
      && op.Dup2Op? && op.p < |procs| && op.fd == op.newfd
      && exists i :: 0 <= i < |procs[op.p].fds| && procs[op.p].fds[i].id == op.fd
    }

    /** One system call; `fault` says that it read freed memory. */
    method Step(op: Op) returns (fault: bool)
      requires Valid()
      modifies this
      ensures Valid() && (fault <==> old(CopiesOntoItself(op)))
    {
      fault := false;
      if op.p >= |procs| {
        return;
      }
      match op
      case PipeOp(p, cloexec, flagsOk, alloc) =>
        var st, r, w := Pipe2(p, cloexec, flagsOk, alloc);
      case DupOp(p, fd, alloc) =>
        var st, freed, k := Dup(p, fd, alloc);
        fault := freed;
      case Dup2Op(p, fd, newfd, alloc) =>
        var st, freed, k := Dup2(p, fd, newfd, alloc);
        fault := freed;
      case ForkOp(p, budget) =>
        var child := Fork(p, budget);
      case CloseOp(p, fd) =>
        var st, k := Close(p, fd);
      case ExecOp(p) =>
        CloseOnExec(p);
      case ExitOp(p) =>
        CloseAll(p);
    }

    /**
     Over every run, up to a dup2 of an open descriptor onto itself: counts are right,
     no call reads freed memory, nothing is freed twice and nothing leaks.
     */
    method Run(ops: seq<Op>) returns (done: nat, fault: bool)
      requires Valid()
      modifies this
      ensures Valid() && done <= |ops| && (fault <==> done < |ops|)
      ensures fault ==> ops[done].Dup2Op? && ops[done].fd == ops[done].newfd
    {
      done, fault := 0, false;
      while done < |ops|
        invariant Valid() && done <= |ops| && !fault
      {
        fault := Step(ops[done]);
        if fault {
          return;
        }
        done := done + 1;
      }
    }

    /** When no process has a descriptor left, no stream and no pipe is left. */
    lemma NothingLeft()
      requires Valid() && forall p :: 0 <= p < |procs| ==> procs[p].fds == []
      ensures streams == map[] && pipes == map[]
    {
      forall s: nat
        ensures s !in streams
      {
        RefsNone(procs, s);
      }
      forall p: nat
        ensures p !in pipes
      {
        UsedAlive(streams, pipes, p);
      }
    }
  }

  lemma {:induction false} RefsNone(procs: seq<Process>, s: nat)
    requires forall p :: 0 <= p < |procs| ==> procs[p].fds == []
    ensures Refs(procs, s) == 0
  {
    if procs != [] {
      RefsNone(procs[..|procs| - 1], s);
    }
  }
}
