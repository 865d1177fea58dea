/**
 Runs of reads and writes of one ext2 file (fs/ext2/inode.c) against a flat byte
 array, with the size kept as kernel/vfs.c keeps it, at any offset a block number
 can reach. Bytes whose inner pointer block is missing swallow what is written to
 them; the last member shows how.
 */
module Ext2Run {
  import opened Arith
  import opened Bytes
  import opened Ext2Tree
  import opened Ext2File
  import Bitmap = Ext2Bitmap

  /** The number of bytes a file can have. */
  function Span(N: nat): nat {
    Mul(Blocks(N), 4 * N)
  }

  lemma BelowSpan(N: nat, o: nat)
    requires N > 0 && o < Span(N)
    ensures InFile(N, o)
  {
    QuotientBound(o, Blocks(N), 4 * N);
  }

  /** The file's bytes as one array; a hole is zeros. */
  ghost function Flat(N: nat, disk: seq<seq<byte>>, root: seq<nat>): (r: seq<byte>)
    requires N > 0
    ensures |r| == Span(N)
  {
    Contents(N, disk, root, Span(N))
  }

  lemma WroteFlat(N: nat, disk: seq<seq<byte>>, root: seq<nat>, disk': seq<seq<byte>>, root': seq<nat>,
                  at: nat, d: seq<byte>)
    requires N > 0 && Wrote(N, disk, root, disk', root', at, d)
    ensures Flat(N, disk', root') == Patched(Flat(N, disk, root), at, d, Present(N, disk, root))
  {
    hide Span, InFile, Wrote;
    forall o: nat | o < Span(N)
      ensures InFile(N, o)
    {
      BelowSpan(N, o);
    }
    WroteContents(N, disk, root, disk', root', at, d, Span(N));
  }

  datatype Op = WriteOp(at: nat, bytes: seq<byte>) | ReadOp(at: nat, length: nat)

  datatype Outcome = Outcome(status: int, written: nat, got: seq<byte>)

  /** The write stays inside the file's span, and no walk breaks off at the very top. */
  ghost predicate Fits(N: nat, disk: seq<seq<byte>>, root: seq<nat>, op: Op) {
    op.WriteOp? ==> op.at + |op.bytes| <= Span(N) && Writable(N, disk, root, op.at, |op.bytes|)
  }

  lemma StillFits(N: nat, disk: seq<seq<byte>>, root: seq<nat>, disk': seq<seq<byte>>, root': seq<nat>, op: Op)
    requires Fits(N, disk, root, op) && SlotsKept(N, disk, root, disk', root')
    ensures Fits(N, disk', root', op)
  {
    if op.WriteOp? {
      StillWritable(N, disk, root, disk', root', op.at, |op.bytes|);
    }
  }

  /** A write that fails has come to a hole. */
  ghost predicate AtHole(N: nat, disk: seq<seq<byte>>, root: seq<nat>, op: Op, out: Outcome, n: nat)
    requires N > 0
  {
    op.WriteOp? && out.status != 0 ==>
      out.status == ENOSPC && n < |op.bytes| && Val(disk, root, PathOf(N, FileBlock(N, op.at + n))) == 0
  }

  lemma HoleBefore(N: nat, disk: seq<seq<byte>>, root: seq<nat>, disk': seq<seq<byte>>, root': seq<nat>,
                   op: Op, out: Outcome, n: nat)
    requires N > 0 && Fits(N, disk, root, op) && SlotsKept(N, disk, root, disk', root')
    requires AtHole(N, disk', root', op, out, n)
    ensures AtHole(N, disk, root, op, out, n)
  {
    hide Writable, SlotsKept, Val, PathOf, FileBlock, Span;
    if op.WriteOp? && out.status != 0 {
      KeptHole(N, disk, root, disk', root', op.at, |op.bytes|, op.at + n);
    }
  }

  lemma FirstDoubly(N: nat, disk: seq<seq<byte>>, root: seq<nat>)
    requires N > 0 && |root| == 15 && forall q :: IsSlot(N, q) ==> Val(disk, root, q) == 0
    ensures PathOf(N, 12 + N) == [13, 0, 0] && Needed(N, disk, root, 12 + N) == 2 && Landing(N, disk, root, 12 + N) == 0
    ensures !InnerPresent(N, disk, root, 12 + N) && !Stray(N, disk, root, 12 + N)
    ensures IsLeaf(N, [13, 0, 0]) && Val(disk, root, [13, 0, 0]) == 0
  {
  }

  /**
   What a call does to the flat array and the size. A write that runs out of space
   has applied a prefix, and only the bytes at `present` can be changed at all.
   */
  ghost predicate FlatStep(flat: seq<byte>, size: nat, op: Op, out: Outcome, flat': seq<byte>, size': nat, n: nat,
                           present: iset<nat>)
    requires size <= |flat|
  {
    match op
    case WriteOp(at, bytes) =>
      && n <= |bytes| && at + |bytes| <= |flat| && flat' == Patched(flat, at, bytes[..n], present)
      && out.written == (if out.status == 0 then n else 0) && (out.status == 0 ==> n == |bytes|)
      && size' == if at + out.written > size then at + out.written else size
    case ReadOp(at, length) =>
      && flat' == flat && size' == size
      && (if at > size then out.status == EINVAL && out.got == []
          else out.status == 0 && out.got == flat[at..if at + length > size then size else at + length])
  }

  ghost predicate FlatRun(ops: seq<Op>, outs: seq<Outcome>, flats: seq<seq<byte>>, sizes: seq<nat>, ns: seq<nat>,
                          present: iset<nat>) {
    && |outs| == |ops| == |ns| && |flats| == |sizes| == |ops| + 1
    && (forall i :: 0 <= i <= |ops| ==> sizes[i] <= |flats[i]|)
    && forall i :: 0 <= i < |ops| ==>
         FlatStep(flats[i], sizes[i], ops[i], outs[i], flats[i + 1], sizes[i + 1], ns[i], present)
  }

  lemma FlatRunExtend(ops: seq<Op>, outs: seq<Outcome>, flats: seq<seq<byte>>, sizes: seq<nat>, ns: seq<nat>, i: nat,
                      out: Outcome, flat: seq<byte>, size: nat, n: nat, present: iset<nat>)
    requires i < |ops| && FlatRun(ops[..i], outs, flats, sizes, ns, present) && size <= |flat|
    requires FlatStep(flats[i], sizes[i], ops[i], out, flat, size, n, present)
    ensures FlatRun(ops[..i + 1], outs + [out], flats + [flat], sizes + [size], ns + [n], present)
  {
  }

  /** One call. */
  method Step(f: File, op: Op) returns (out: Outcome, ghost n: nat)
    requires f.Valid() && f.size <= Span(f.N) && Fits(f.N, f.disk, f.root, op)
    modifies f, f.table
    ensures f.Valid() && f.size <= Span(f.N)
    ensures old(f.size) <= |old(Flat(f.N, f.disk, f.root))|
    ensures FlatStep(old(Flat(f.N, f.disk, f.root)), old(f.size), op, out, Flat(f.N, f.disk, f.root), f.size, n,
                     old(Present(f.N, f.disk, f.root)))
    ensures SlotsKept(f.N, old(f.disk), old(f.root), f.disk, f.root) && f.InUse() >= old(f.InUse())
    ensures Elsewhere(f.N, old(f.disk), old(f.root), old(f.InUse()), f.disk, f.root, f.InUse(), 0)
    ensures AtHole(f.N, old(f.disk), old(f.root), op, out, n)
    ensures op.WriteOp? && out.status != 0 ==> Missed(f.table.s, f.table.groups, f.table.superFree)
  {
    hide Sound, FileByte, Span, Present, Patched, Wrote, InFile, Writable, FileBlock, Blocks, PathOf, Val, SlotsKept,
      Elsewhere, Missed, Used, Bitmap.InUse, Bitmap.Consistent;
    SameStart(f.N, f.disk, f.root, f.InUse());
    ghost var disk, root := f.disk, f.root;
    n := 0;
    match op
    case WriteOp(at, bytes) =>
      var status, written;
      status, written, n := f.WriteInode(bytes, at);
      WroteFlat(f.N, disk, root, f.disk, f.root, at, bytes[..n]);
      if at + written > f.size {
        f.size := at + written;
      }
      out := Outcome(status, written, []);
    case ReadOp(at, length) =>
      forall o: nat | o < f.size
        ensures InFile(f.N, o)
      {
        BelowSpan(f.N, o);
      }
      var status, got := f.ReadInode(at, length);
      out := Outcome(status, 0, got);
  }

  /**
   Every run of reads and writes: each outcome is the one the flat array gives, with
   the bytes that cannot be changed those whose inner pointer block was missing when
   the run started. A write fails only where the file had a hole then, and no block
   of another file changes.
   */
  method Run(f: File, ops: seq<Op>)
    returns (outs: seq<Outcome>, ghost flats: seq<seq<byte>>, ghost sizes: seq<nat>, ghost ns: seq<nat>)
    requires f.Valid() && f.size <= Span(f.N) && forall i :: 0 <= i < |ops| ==> Fits(f.N, f.disk, f.root, ops[i])
    modifies f, f.table
    ensures f.Valid() && |outs| == |ops| && FlatRun(ops, outs, flats, sizes, ns, old(Present(f.N, f.disk, f.root)))
    ensures flats[0] == old(Flat(f.N, f.disk, f.root)) && flats[|ops|] == Flat(f.N, f.disk, f.root)
    ensures sizes[0] == old(f.size) && sizes[|ops|] == f.size
    ensures forall i :: 0 <= i < |ops| ==> AtHole(f.N, old(f.disk), old(f.root), ops[i], outs[i], ns[i])
    ensures Elsewhere(f.N, old(f.disk), old(f.root), old(f.InUse()), f.disk, f.root, f.InUse(), 0)
  {
    hide FlatStep, Span, Fits, Flat, Present, AtHole, SlotsKept, Elsewhere, Sound, Used, Bitmap.InUse,
      Bitmap.Consistent;
    SameStart(f.N, f.disk, f.root, f.InUse());
    outs, flats, sizes, ns := [], [Flat(f.N, f.disk, f.root)], [f.size], [];
    var i := 0;
    while i < |ops|
      invariant 0 <= i == |outs| <= |ops| && f.Valid() && f.size <= Span(f.N)
      invariant FlatRun(ops[..i], outs, flats, sizes, ns, old(Present(f.N, f.disk, f.root)))
      invariant flats[0] == old(Flat(f.N, f.disk, f.root)) && flats[i] == Flat(f.N, f.disk, f.root)
      invariant sizes[0] == old(f.size) && sizes[i] == f.size
      invariant SlotsKept(f.N, old(f.disk), old(f.root), f.disk, f.root)
      invariant forall k :: 0 <= k < i ==> AtHole(f.N, old(f.disk), old(f.root), ops[k], outs[k], ns[k])
      invariant Elsewhere(f.N, old(f.disk), old(f.root), old(f.InUse()), f.disk, f.root, f.InUse(), 0)
    {
      var out;
      ghost var n;
      ghost var mid, root, used := f.disk, f.root, f.InUse();
      StillFits(f.N, old(f.disk), old(f.root), mid, root, ops[i]);
      PresentKept(f.N, old(f.disk), old(f.root), mid, root);
      out, n := Step(f, ops[i]);
      HoleBefore(f.N, old(f.disk), old(f.root), mid, root, ops[i], out, n);
      KeptTwice(f.N, old(f.disk), old(f.root), mid, root, f.disk, f.root);
      ElsewhereTwice(f.N, old(f.disk), old(f.root), old(f.InUse()), mid, root, used, f.disk, f.root, f.InUse(), 0);
      FlatRunExtend(ops, outs, flats, sizes, ns, i, out, Flat(f.N, f.disk, f.root), f.size, n,
                    old(Present(f.N, f.disk, f.root)));
      outs, flats, sizes, ns := outs + [out], flats + [Flat(f.N, f.disk, f.root)], sizes + [f.size], ns + [n];
      i := i + 1;
    }
    assert ops[..i] == ops;
  }

  /**
   The first doubly indirect block of a file without blocks is lost: the call takes
   two blocks and reports success, the pointer is still zero, and the volume's
   block 0 has been overwritten with it.
   */
  method FirstDoublyBlockLost(f: File, v: nat) returns (status: int, r: nat)
    requires f.Valid() && Linkable(f.N, f.disk, f.root, f.InUse(), v) && v != 0
    requires forall q :: IsSlot(f.N, q) ==> Val(f.disk, f.root, q) == 0
    requires f.table.superFree >= 2
    modifies f, f.table
    ensures f.Valid() && status == 0 && r == 0 && f.table.superFree == old(f.table.superFree) - 2
    ensures |f.disk| == |old(f.disk)| > 0 && Word(f.disk[0], 0) == v
  {
    hide Sound, LeafSet, InnerKept, Used, Val, StillFree, Bitmap.InUse, Bitmap.Consistent;
    var n := 12 + f.N;
    MultipleBound(f.N, f.N);
    ghost var i, j := DoublyPath(f.N, n);
    PathOfIsLeaf(f.N, n);
    FirstDoubly(f.N, f.disk, f.root);
    status := f.SetBlockId(n, v);
    WordAfterPut(old(f.disk)[0], 0, v, 0);
    r := f.DecodeBlockId(n);
  }
}
