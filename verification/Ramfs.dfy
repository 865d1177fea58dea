/**
 Regular files of the RAM file system (fs/ramfs/ramfs.c) under the read, write and
 truncate calls of the VFS (kernel/vfs.c). A file is a list of extents, searched
 from the front for the first one that covers an offset.
 */
module Ramfs {

  import opened Bytes

  const EIO: nat := 5
  const ENOMEM: nat := 12
  const ENOSPC: nat := 28

  datatype Extent = Extent(start: nat, data: seq<byte>)

  /** ramfs_block_search_iterator. */
  predicate Covers(e: Extent, o: nat) {
    e.start <= o && e.start + |e.data| > o
  }

  /** The extents' bytes one after the other. */
  ghost function Flat(l: seq<Extent>): seq<byte> {
    if l == [] then [] else Flat(l[..|l| - 1]) + l[|l| - 1].data
  }

  /** Every extent starts where the ones before it end: no gap, no overlap. */
  ghost predicate Tiled(l: seq<Extent>) {
    forall i :: 0 <= i < |l| ==> l[i].start == |Flat(l[..i])|
  }

  lemma TiledPrefix(l: seq<Extent>, n: nat)
    requires Tiled(l) && n <= |l|
    ensures Tiled(l[..n])
  {
    assert forall i :: 0 <= i < n ==> l[..n][..i] == l[..i];
  }

  lemma {:induction false} FlatAt(l: seq<Extent>, i: nat)
    requires Tiled(l) && i < |l|
    ensures l[i].start + |l[i].data| <= |Flat(l)|
    ensures Flat(l)[l[i].start..l[i].start + |l[i].data|] == l[i].data
  {
    var n := |l| - 1;
    if i < n {
      TiledPrefix(l, n);
      FlatAt(l[..n], i);
    }
  }

  /** Rewriting an extent in place rewrites its stretch of the file. */
  lemma {:induction false} FlatSet(l: seq<Extent>, i: nat, d: seq<byte>)
    requires Tiled(l) && i < |l| && |d| == |l[i].data| && l[i].start + |d| <= |Flat(l)|
    ensures Flat(l[i := Extent(l[i].start, d)]) == Overlay(Flat(l), l[i].start, d)
  {
    hide Overlay;
    var n := |l| - 1;
    var m := l[i := Extent(l[i].start, d)];
    if i < n {
      TiledPrefix(l, n);
      FlatAt(l[..n], i);
      FlatSet(l[..n], i, d);
      assert m[..n] == l[..n][i := Extent(l[i].start, d)];
      OverlayFront(Flat(l[..n]), l[n].data, l[i].start, d);
    } else {
      assert m[..n] == l[..n];
      OverlayBack(Flat(l[..n]), l[n].data, d);
    }
  }

  lemma OverlayFront(a: seq<byte>, b: seq<byte>, at: nat, d: seq<byte>)
    requires at + |d| <= |a|
    ensures Overlay(a + b, at, d) == Overlay(a, at, d) + b
  {
  }

  lemma OverlayBack(a: seq<byte>, b: seq<byte>, d: seq<byte>)
    requires |d| == |b|
    ensures Overlay(a + b, |a|, d) == a + d
  {
  }

  lemma TiledSet(l: seq<Extent>, i: nat, d: seq<byte>)
    requires Tiled(l) && i < |l| && |d| == |l[i].data|
    ensures Tiled(l[i := Extent(l[i].start, d)])
  {
    var m := l[i := Extent(l[i].start, d)];
    forall j | 0 <= j < |m|
      ensures m[j].start == |Flat(m[..j])|
    {
      if i < j {
        TiledPrefix(l, j);
        FlatAt(l[..j], i);
        FlatSet(l[..j], i, d);
        assert m[..j] == l[..j][i := Extent(l[i].start, d)];
      } else {
        assert m[..j] == l[..j];
      }
    }
  }

  lemma {:induction false} Covered(l: seq<Extent>, o: nat)
    requires Tiled(l) && o < |Flat(l)|
    ensures exists i :: 0 <= i < |l| && Covers(l[i], o)
  {
    var n := |l| - 1;
    if o < |Flat(l[..n])| {
      TiledPrefix(l, n);
      Covered(l[..n], o);
      var i :| 0 <= i < n && Covers(l[..n][i], o);
      assert Covers(l[i], o);
    } else {
      assert Covers(l[n], o);
    }
  }

  /** A new extent behind the last one keeps the tiling exactly if it starts at the end. */
  lemma TiledAdd(l: seq<Extent>, e: Extent)
    requires Tiled(l)
    ensures Tiled(l + [e]) <==> e.start == |Flat(l)|
    ensures Flat(l + [e]) == Flat(l) + e.data
  {
    var m := l + [e];
    assert m[..|l|] == l;
    assert forall i :: 0 <= i < |l| ==> m[i] == l[i] && m[..i] == l[..i];
  }

  /** No byte is in two extents, and the extents cover the file and no more. */
  lemma TilesExactly(l: seq<Extent>, o: nat)
    requires Tiled(l)
    ensures o < |Flat(l)| <==> exists i :: 0 <= i < |l| && Covers(l[i], o)
    ensures forall i, j :: 0 <= i < j < |l| ==> !(Covers(l[i], o) && Covers(l[j], o))
  {
    if o < |Flat(l)| {
      Covered(l, o);
    }
    forall i | 0 <= i < |l| && Covers(l[i], o)
      ensures o < |Flat(l)|
    {
      FlatAt(l, i);
    }
    forall i, j | 0 <= i < j < |l|
      ensures !(Covers(l[i], o) && Covers(l[j], o))
    {
      TiledPrefix(l, j);
      FlatAt(l[..j], i);
    }
  }

  // ---------- a file as a byte sequence ----------

  /** Content after a write of `d` at `at`, which may go over the end. */
  ghost function Put(content: seq<byte>, at: nat, d: seq<byte>): seq<byte>
    requires at <= |content|
  {
    content[..at] + d + if at + |d| < |content| then content[at + |d|..] else []
  }

  ghost function Padded(content: seq<byte>, size: nat): seq<byte> {
    content + if size > |content| then Zeros(size - |content|) else []
  }

  ghost function Min(a: int, b: int): int {
    if a < b then a else b
  }

  /** A write inside the file followed by an append of the rest is a write over the end. */
  lemma PutSplit(content: seq<byte>, at: nat, d: seq<byte>, fit: nat)
    requires at + fit <= |content| && fit <= |d| && (fit == |d| || at + fit == |content|)
    ensures Overlay(content, at, d[..fit]) + d[fit..] == Put(content, at, d)
  {
  }

  lemma PutPart(content: seq<byte>, at: nat, d: seq<byte>, fit: nat)
    requires at + fit <= |content| && fit <= |d|
    ensures Overlay(content, at, d[..fit]) == Put(content, at, d[..fit])
  {
  }

  /** A copy into an extent is a copy into the file. */
  lemma OverlayNested(content: seq<byte>, start: nat, n: nat, blockOff: nat, d: seq<byte>)
    requires start + n <= |content| && blockOff + |d| <= n
    ensures Overlay(content, start, Overlay(content[start..start + n], blockOff, d)) ==
      Overlay(content, start + blockOff, d)
  {
  }

  lemma OverlayNone(content: seq<byte>, at: nat)
    ensures at <= |content| ==> Overlay(content, at, []) == content
  {
  }

  lemma OverlayMore(content: seq<byte>, at: nat, data: seq<byte>, fit: nat, m: nat, n: nat)
    requires at + fit <= |content| && m <= n <= fit <= |data|
    ensures Overlay(Overlay(content, at, data[..m]), at + m, data[m..n]) == Overlay(content, at, data[..n])
  {
  }

  /** Whether a write needs a new extent. Writing nothing at the very end asks for one too. */
  ghost predicate NeedsExtent(size: nat, offset: nat, length: nat) {
    offset + length > size || (length == 0 && offset == size)
  }

  /** How many bytes a write puts into the file. */
  ghost function Accepted(size: nat, offset: nat, length: nat, alloc: bool): (n: nat)
    requires offset <= size
    ensures n <= length
  {
    if alloc || !NeedsExtent(size, offset, length) then length else size - offset
  }

  datatype Op =
    | WriteOp(offset: nat, data: seq<byte>, allocPad: bool, alloc: bool)
    | ReadOp(offset: nat, count: nat)
    | TruncOp(length: nat, alloc: bool)

  /** The file as a byte sequence: what a call makes of it. */
  ghost function After(content: seq<byte>, op: Op): seq<byte> {
    match op
    case WriteOp(offset, data, allocPad, alloc) =>
      if offset > |content| && !allocPad then content
      else
        var padded := Padded(content, offset);
        Put(padded, offset, data[..Accepted(|padded|, offset, |data|, alloc)])
    case ReadOp(_, _) => content
    case TruncOp(length, alloc) => if length > |content| && alloc then Padded(content, length) else content
  }

  /** The bytes a read returns: all there are up to the end of the file. */
  ghost function Answer(content: seq<byte>, op: Op): seq<byte> {
    if op.ReadOp? && op.offset < |content| then content[op.offset..Min(op.offset + op.count, |content|)] else []
  }

  ghost function AfterAll(content: seq<byte>, ops: seq<Op>): seq<byte> {
    if ops == [] then content else After(AfterAll(content, ops[..|ops| - 1]), ops[|ops| - 1])
  }

  /**
   Byte by byte: written bytes are the new ones, bytes skipped over are zero, all others are as before.
   Without memory only what lies inside the file is written, and nothing is skipped.
   */
  lemma WriteMeans(content: seq<byte>, offset: nat, data: seq<byte>, allocPad: bool, alloc: bool, i: nat)
    ensures var after := After(content, WriteOp(offset, data, allocPad, alloc));
      var n := if alloc || offset + |data| <= |content| then |data| else if offset < |content| then |content| - offset
               else 0;
      if offset > |content| && !allocPad then after == content
      else
        && |after| == (if offset + n > |content| then offset + n else |content|)
        && (i < |after| ==> after[i] == (if offset <= i < offset + n then data[i - offset]
                                         else if i < |content| then content[i] else 0))
  {
  }

  /** A truncation only lengthens: all bytes stay, and the new ones are zero. */
  lemma TruncMeans(content: seq<byte>, length: nat, alloc: bool)
    ensures var after := After(content, TruncOp(length, alloc));
      && |after| == (if length > |content| && alloc then length else |content|) && content <= after
      && forall i :: |content| <= i < |after| ==> after[i] == 0
  {
  }

  lemma PadIsPut(content: seq<byte>, offset: nat, zeros: seq<byte>)
    requires offset > |content| && zeros == Zeros(offset - |content|)
    ensures Put(content, |content|, zeros[..|zeros|]) == Padded(content, offset)
    ensures Put(content, |content|, zeros[..0]) == content
  {
  }

  lemma SliceOfExtent(content: seq<byte>, e: Extent, blockOff: nat, len: nat)
    requires e.start + |e.data| <= |content| && content[e.start..e.start + |e.data|] == e.data
    requires blockOff + len <= |e.data|
    ensures e.data[blockOff..blockOff + len] == content[e.start + blockOff..e.start + blockOff + len]
  {
    var held := content[e.start..e.start + |e.data|];
    var x, y := e.data[blockOff..blockOff + len], content[e.start + blockOff..e.start + blockOff + len];
    forall i | 0 <= i < len
      ensures x[i] == y[i]
    {
      assert held[blockOff + i] == content[e.start + (blockOff + i)];
    }
  }

  lemma SliceJoin(content: seq<byte>, a: nat, b: nat, c: nat)
    requires a <= b <= c <= |content|
    ensures content[a..b] + content[b..c] == content[a..c]
  {
  }

  class Inode {
    var extents: seq<Extent>
    var size: nat

    ghost predicate Valid()
      reads this
    {
      Tiled(extents) && size == |Flat(extents)|
    }

    ghost function Content(): seq<byte>
      reads this
    {
      Flat(extents)
    }

    /** ramfs_mknod. */
    constructor ()
      ensures Valid() && Content() == []
    {
      extents, size := [], 0;
    }

    /** First-match search, -1 for none. */
    method Search(o: nat) returns (k: int)
      ensures k < 0 <==> forall i :: 0 <= i < |extents| ==> !Covers(extents[i], o)
      ensures k >= 0 ==> k < |extents| && Covers(extents[k], o) && forall i :: 0 <= i < k ==> !Covers(extents[i], o)
    {
      k := 0;
      while k < |extents|
        invariant 0 <= k <= |extents|
        invariant forall i :: 0 <= i < k ==> !Covers(extents[i], o)
      {
        if Covers(extents[k], o) {
          return;
        }
        k := k + 1;
      }
      k := -1;
    }

    /** One turn of the loop of ramfs_read_inode: the bytes up to the end of their extent. */
    method ReadTurn(cur: nat, left: nat) returns (found: bool, d: seq<byte>)
      requires Tiled(extents)
      ensures found <==> cur < |Content()|
      ensures found ==>
        cur + |d| <= |Content()| && d == Content()[cur..cur + |d|] && |d| <= left && (left > 0 ==> |d| > 0)
      ensures !found ==> d == []
    {
      hide Tiled, Flat;
      TilesExactly(extents, cur);
      var k := Search(cur);
      if k < 0 {
        return false, [];
      }
      FlatAt(extents, k);
      var blockOff := cur - extents[k].start;
      var len := |extents[k].data| - blockOff;
      if left < len {
        len := left;
      }
      SliceOfExtent(Content(), extents[k], blockOff, len);
      return true, extents[k].data[blockOff..blockOff + len];
    }

    /** ramfs_read_inode. */
    method ReadInode(offset: nat, length: nat) returns (st: nat, bytes: seq<byte>)
      requires Tiled(extents)
      ensures var n := if offset < |Content()| then Min(length, |Content()| - offset) else 0;
        && (n > 0 ==> bytes == Content()[offset..offset + n]) && |bytes| == n
        && st == if n < length then EIO else 0
    {
      hide Tiled, Flat;
      bytes := [];
      while true
        invariant |bytes| < length || (length == 0 && bytes == [])
        invariant |bytes| > 0 ==> offset + |bytes| <= |Content()| && bytes == Content()[offset..offset + |bytes|]
        decreases length - |bytes|
      {
        var found, d := ReadTurn(offset + |bytes|, length - |bytes|);
        if !found {
          break;
        }
        SliceJoin(Content(), offset, offset + |bytes|, offset + |bytes| + |d|);
        bytes := bytes + d;
        if |bytes| == length {
          break;
        }
      }
      st := if |bytes| < length then EIO else 0;
    }

    /** The memcpy of a write into one extent. */
    method Patch(k: nat, blockOff: nat, d: seq<byte>)
      requires Tiled(extents) && k < |extents| && blockOff + |d| <= |extents[k].data|
      modifies `extents
      ensures Tiled(extents) && |extents| == |old(extents)| && extents[k].start == old(extents[k].start)
      ensures extents[k].start + blockOff + |d| <= |old(Content())|
      ensures Content() == Overlay(old(Content()), extents[k].start + blockOff, d)
    {
      hide Tiled, Flat;
      var e := extents[k];
      var d' := Overlay(e.data, blockOff, d);
      FlatAt(extents, k);
      FlatSet(extents, k, d');
      TiledSet(extents, k, d');
      OverlayNested(Content(), e.start, |e.data|, blockOff, d);
      extents := extents[k := Extent(e.start, d')];
    }

    /** The loop of ramfs_write_inode: it rewrites what there is to rewrite. `found` says that it ended in an extent. */
    method Rewrite(offset: nat, data: seq<byte>) returns (found: bool, done: nat)
      requires Tiled(extents)
      modifies `extents
      ensures Tiled(extents) && (found <==> !NeedsExtent(|old(Content())|, offset, |data|))
      ensures done == (if offset <= |old(Content())| then Min(|data|, |old(Content())| - offset) else 0)
      ensures offset <= |old(Content())| ==> Content() == Overlay(old(Content()), offset, data[..done])
      ensures offset > |old(Content())| ==> extents == old(extents)
    {
      hide Tiled, Flat, Overlay;
      ghost var before := Content();
      ghost var fit := if offset <= |before| then Min(|data|, |before| - offset) else 0;
      done := 0;
      OverlayNone(before, offset);
      while true
        invariant Tiled(extents) && |Content()| == |before| && 0 <= done <= fit
        invariant offset <= |before| ==> Content() == Overlay(before, offset, data[..done])
        invariant offset > |before| ==> extents == old(extents)
        invariant done < |data| || |data| == 0
        decreases |data| - done
      {
        TilesExactly(extents, offset + done);
        var k := Search(offset + done);
        if k < 0 {
          return false, done;
        }
        FlatAt(extents, k);
        var blockOff := offset + done - extents[k].start;
        var len := |extents[k].data| - blockOff;
        if |data| - done < len {
          len := |data| - done;
        }
        OverlayMore(before, offset, data, fit, done, done + len);
        Patch(k, blockOff, data[done..done + len]);
        done := done + len;
        if done == |data| {
          return true, done;
        }
      }
    }

    /**
     ramfs_write_inode. A write that starts at or before the end of the extents
     rewrites them and appends what is left; one that starts behind it leaves a gap.
     */
    method WriteInode(offset: nat, data: seq<byte>, alloc: bool) returns (st: nat, n: nat)
      requires Tiled(extents)
      modifies `extents
      ensures Tiled(extents) <==> offset <= |old(Content())| || !alloc
      ensures st == (if !alloc && NeedsExtent(|old(Content())|, offset, |data|) then ENOSPC else 0)
      ensures offset <= |old(Content())| ==>
        && n == (if st == 0 then |data| else |old(Content())| - offset) && n <= |data|
        && Content() == Put(old(Content()), offset, data[..n])
      ensures offset > |old(Content())| ==> extents == old(extents) + if alloc then [Extent(offset, data)] else []
    {
      hide Tiled, Flat, Put, Overlay;
      ghost var before := Content();
      var found, done := Rewrite(offset, data);
      if offset <= |before| {
        PutPart(before, offset, data, done);
        PutSplit(before, offset, data, done);
        assert data[..|data|] == data;
      }
      if found {
        return 0, |data|;
      }
      if !alloc {
        return ENOSPC, done;
      }
      TiledAdd(extents, Extent(offset + done, data[done..]));
      extents := extents + [Extent(offset + done, data[done..])];
      return 0, |data|;
    }

    /**
     The padding of vfs_write, and the size with which its buffer is freed: what the
     driver has written back, so that a failing write leaks the buffer.
     */
    method Pad(offset: nat, alloc: bool) returns (st: nat, freed: nat)
      requires Valid() && offset > size
      modifies this
      ensures Valid() && st == (if alloc then 0 else ENOSPC)
      ensures Content() == if alloc then Padded(old(Content()), offset) else old(Content())
      ensures freed == if alloc then offset - old(size) else 0
    {
      hide Tiled, Flat, Put;
      var zeros := Zeros(offset - size);
      PadIsPut(Content(), offset, zeros);
      st, freed := WriteInode(size, zeros, alloc);
      size := size + freed;
    }

    /** vfs_write of a regular file. */
    method Write(offset: nat, buffer: seq<byte>, allocPad: bool, alloc: bool) returns (st: nat, n: nat)
      requires Valid()
      modifies this
      ensures Valid() && Content() == After(old(Content()), WriteOp(offset, buffer, allocPad, alloc))
      ensures n <= |buffer| && (st == 0 ==> n == |buffer|)
      ensures st == 0 <==>
        && (offset > |old(Content())| ==> allocPad)
        && (NeedsExtent(|Padded(old(Content()), offset)|, offset, |buffer|) ==> alloc)
    {
      hide Tiled, Flat;
      if offset + |buffer| > size {
        if offset > size {
          var freed;
          st, freed := Pad(offset, allocPad);
          if st != 0 {
            return st, 0;
          }
        }
      }
      assert Content() == Padded(old(Content()), offset);
      st, n := WriteInode(offset, buffer, alloc);
      if offset + n > size {
        size := offset + n;
      }
    }

    /** vfs_read of a regular file: in range a read never ends short and never fails. */
    method Read(offset: nat, count: nat) returns (st: nat, bytes: seq<byte>)
      requires Valid()
      ensures st == 0 && bytes == Answer(Content(), ReadOp(offset, count))
      ensures |bytes| == if offset < |Content()| then Min(count, |Content()| - offset) else 0
      ensures forall i :: 0 <= i < |bytes| ==> bytes[i] == Content()[offset + i]
    {
      hide Tiled, Flat;
      var length := count;
      if offset + count > size {
        if offset >= size {
          return 0, [];
        }
        length := size - offset;
      }
      st, bytes := ReadInode(offset, length);
    }

    /** vfs_truncate of a regular file. Shrinking is refused. */
    method Truncate(length: nat, alloc: bool) returns (st: nat)
      requires Valid()
      modifies this
      ensures Valid() && Content() == After(old(Content()), TruncOp(length, alloc))
      ensures st == if length > |old(Content())| then (if alloc then 0 else ENOMEM)
                    else if length < |old(Content())| then EIO else 0
      ensures if st == 0 then |Content()| == length && old(Content()) <= Content() else Content() == old(Content())
      ensures forall i :: |old(Content())| <= i < |Content()| ==> Content()[i] == 0
    {
      hide Tiled, Flat;
      TruncMeans(Content(), length, alloc);
      if length > size {
        if !alloc {
          return ENOMEM;
        }
        TiledAdd(extents, Extent(size, Zeros(length - size)));
        extents := extents + [Extent(size, Zeros(length - size))];
      } else if length < size {
        return EIO;
      }
      size := length;
      st := 0;
    }

    /** Over every run the file is the byte sequence: the same content at the end, and every read returns its bytes. */
    method Run(ops: seq<Op>) returns (answers: seq<seq<byte>>)
      requires Valid()
      modifies this
      ensures Valid() && Content() == AfterAll(old(Content()), ops) && |answers| == |ops|
      ensures forall i :: 0 <= i < |ops| ==> answers[i] == Answer(AfterAll(old(Content()), ops[..i]), ops[i])
    {
      hide Tiled, Flat, After, Answer;
      answers := [];
      var i := 0;
      while i < |ops|
        invariant 0 <= i <= |ops| && |answers| == i
        invariant Valid() && Content() == AfterAll(old(Content()), ops[..i])
        invariant forall j :: 0 <= j < i ==> answers[j] == Answer(AfterAll(old(Content()), ops[..j]), ops[j])
      {
        assert ops[..i + 1][..i] == ops[..i];
        var answer := Step(ops[i]);
        answers := answers + [answer];
        i := i + 1;
      }
      assert ops[..i] == ops;
    }

    method Step(op: Op) returns (answer: seq<byte>)
      requires Valid()
      modifies this
      ensures Valid() && Content() == After(old(Content()), op) && answer == Answer(old(Content()), op)
    {
      hide Tiled, Flat;
      answer := [];
      match op
      case WriteOp(offset, data, allocPad, alloc) =>
        var st, n := Write(offset, data, allocPad, alloc);
      case ReadOp(offset, count) =>
        var st, bytes := Read(offset, count);
        answer := bytes;
      case TruncOp(length, alloc) =>
        var st := Truncate(length, alloc);
    }
  }
}
