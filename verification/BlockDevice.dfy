/**
 The write-back block cache over a block driver (kernel/dev/blkdev.c and
 kernel/dev/blkcache.c), for one minor device.

 The whole stack refines one flat byte array, the ghost field `view`: whatever
 the cache holds, evicts or fails to write back, a read returns the bytes of
 `view` and a write overlays its bytes on `view`.
 */
module BlockDevice {
  import opened Arith
  import opened Bytes

  const EIO := 5
  const ENOMEM := 12

  /** A cached block. */
  datatype Entry = Entry(offset: nat, dirty: bool, data: seq<byte>)

  /** What never changes: block size, cache limit, and the offsets of the blocks the driver cannot read. */
  datatype Geometry = Geometry(blockSize: nat, maxEntries: nat, bad: set<nat>)

  /** What blkcache_get returns: a position in the list, NULL or BLKCACHE_ENOMEM. */
  datatype GetResult = Got(index: nat) | Blocked | NoMemory

  // ---------- the refinement invariant ----------

  ghost predicate InRange(g: Geometry, size: nat, offset: nat) {
    g.blockSize > 0 && offset % g.blockSize == 0 && offset + g.blockSize <= size
  }

  /** The byte does not lie in a block the driver cannot read. */
  ghost predicate Good(g: Geometry, o: nat) {
    forall b :: b in g.bad ==> !(b <= o < b + g.blockSize)
  }

  /** Equal on every byte outside unreadable blocks. */
  ghost predicate Same(g: Geometry, u: seq<byte>, w: seq<byte>) {
    |u| == |w| && forall o :: 0 <= o < |u| && Good(g, o) ==> u[o] == w[o]
  }

  predicate Cached(list: seq<Entry>, offset: nat) {
    exists i :: 0 <= i < |list| && list[i].offset == offset
  }

  ghost predicate Covered(g: Geometry, list: seq<Entry>, o: nat) {
    exists i :: 0 <= i < |list| && list[i].offset <= o < list[i].offset + g.blockSize
  }

  ghost predicate Shape(g: Geometry, size: nat, list: seq<Entry>) {
    && g.blockSize > 0 && g.maxEntries > 0
    && size % g.blockSize == 0
    && |list| <= g.maxEntries
    && (forall i :: 0 <= i < |list| ==> InRange(g, size, list[i].offset) && |list[i].data| == g.blockSize)
    && (forall i, j :: 0 <= i < j < |list| ==> list[i].offset != list[j].offset)
  }

  /** The bytes of the block at `offset`. */
  function BlockOf(g: Geometry, s: seq<byte>, offset: nat): (r: seq<byte>)
    requires offset + g.blockSize <= |s|
    ensures |r| == g.blockSize
  {
    s[offset..offset + g.blockSize]
  }

  /** The entry holds the current bytes of its block; when clean the driver holds them too. */
  ghost predicate Tied(g: Geometry, storage: seq<byte>, view: seq<byte>, e: Entry)
    requires InRange(g, |storage|, e.offset) && |view| == |storage|
  {
    && e.data == BlockOf(g, view, e.offset)
    && (!e.dirty && e.offset !in g.bad ==> e.data == BlockOf(g, storage, e.offset))
  }

  /** Every byte where the flat array and the driver differ is in the cache. */
  ghost predicate Backed(g: Geometry, storage: seq<byte>, list: seq<Entry>, view: seq<byte>) {
    && |view| == |storage|
    && forall o :: 0 <= o < |storage| && view[o] != storage[o] ==> Covered(g, list, o)
  }

  ghost predicate Inv(g: Geometry, storage: seq<byte>, list: seq<Entry>, view: seq<byte>) {
    && Shape(g, |storage|, list)
    && |view| == |storage|
    && Backed(g, storage, list, view)
    && forall i :: 0 <= i < |list| ==> Tied(g, storage, view, list[i])
  }

  lemma Apart(g: Geometry, size: nat, a: nat, b: nat)
    requires InRange(g, size, a) && InRange(g, size, b) && a != b
    ensures a + g.blockSize <= b || b + g.blockSize <= a
  {
    if a < b {
      MultiplesApart(a, b, g.blockSize);
    } else {
      MultiplesApart(b, a, g.blockSize);
    }
  }

  /** Only an entry with the same offset covers a byte of a block. */
  lemma CoverIsCached(g: Geometry, size: nat, list: seq<Entry>, offset: nat, o: nat)
    requires Shape(g, size, list) && InRange(g, size, offset)
    requires offset <= o < offset + g.blockSize && Covered(g, list, o)
    ensures Cached(list, offset)
  {
    var i :| 0 <= i < |list| && list[i].offset <= o < list[i].offset + g.blockSize;
    if list[i].offset != offset {
      Apart(g, size, offset, list[i].offset);
    }
  }

  /** The driver holds the current bytes of every block that is not cached. */
  lemma UncachedStored(g: Geometry, storage: seq<byte>, list: seq<Entry>, view: seq<byte>, offset: nat)
    requires Inv(g, storage, list, view) && InRange(g, |storage|, offset) && !Cached(list, offset)
    ensures BlockOf(g, view, offset) == BlockOf(g, storage, offset)
  {
    forall o | offset <= o < offset + g.blockSize
      ensures view[o] == storage[o]
    {
      if Covered(g, list, o) {
        CoverIsCached(g, |storage|, list, offset, o);
      }
    }
  }

  /** An update of the flat array inside one block leaves the entries of other blocks tied. */
  lemma TiedElsewhere(g: Geometry, storage: seq<byte>, view: seq<byte>, at: nat, d: seq<byte>, offset: nat, e: Entry)
    requires |view| == |storage| && InRange(g, |storage|, e.offset) && InRange(g, |storage|, offset)
    requires e.offset != offset && offset <= at && at + |d| <= offset + g.blockSize
    requires Tied(g, storage, view, e)
    ensures Tied(g, storage, Overlay(view, at, d), e)
  {
    Apart(g, |storage|, e.offset, offset);
    OverlayApart(view, at, d, e.offset, e.offset + g.blockSize);
  }

  /** Dropping a clean head entry is invisible outside unreadable blocks. */
  lemma EvictClean(g: Geometry, storage: seq<byte>, list: seq<Entry>, view: seq<byte>) returns (view': seq<byte>)
    requires Inv(g, storage, list, view) && |list| > 0 && !list[0].dirty
    ensures Inv(g, storage, list[1..], view') && Same(g, view, view')
  {
    var e := list[0];
    view' := Overlay(view, e.offset, BlockOf(g, storage, e.offset));
    assert Tied(g, storage, view, e);
    forall i | 0 <= i < |list[1..]|
      ensures Tied(g, storage, view', list[1..][i])
    {
      assert list[1..][i] == list[i + 1];
      TiedElsewhere(g, storage, view, e.offset, BlockOf(g, storage, e.offset), e.offset, list[i + 1]);
    }
    forall o | 0 <= o < |storage| && view'[o] != storage[o]
      ensures Covered(g, list[1..], o)
    {
      assert forall k :: 0 <= k < g.blockSize ==> view'[e.offset + k] == BlockOf(g, view', e.offset)[k];
      assert Covered(g, list, o);
      var i :| 0 <= i < |list| && list[i].offset <= o < list[i].offset + g.blockSize;
      assert list[1..][i - 1] == list[i];
    }
    EvictSame(g, storage, view, e);
  }

  lemma EvictSame(g: Geometry, storage: seq<byte>, view: seq<byte>, e: Entry)
    requires |view| == |storage| && InRange(g, |storage|, e.offset)
    requires Tied(g, storage, view, e) && !e.dirty
    ensures Same(g, view, Overlay(view, e.offset, BlockOf(g, storage, e.offset)))
  {
  }

  /** Changes inside one cached block keep every difference covered. */
  lemma BackedAfter(g: Geometry, storage: seq<byte>, list: seq<Entry>, view: seq<byte>,
                    storage': seq<byte>, list': seq<Entry>, view': seq<byte>, block: nat)
    requires Backed(g, storage, list, view) && |storage'| == |view'| == |storage|
    requires Cached(list', block) && forall i :: 0 <= i < |list| ==> Cached(list', list[i].offset)
    requires forall o :: 0 <= o < |storage| && !(block <= o < block + g.blockSize) ==>
      storage'[o] == storage[o] && view'[o] == view[o]
    ensures Backed(g, storage', list', view')
  {
  }

  /**
   Adding the entry of an uncached block that agrees with the driver, or fixing the flat array for
   one that does not.
   */
  lemma AppendEntry(g: Geometry, storage: seq<byte>, list: seq<Entry>, view: seq<byte>, e: Entry)
    requires Inv(g, storage, list, view) && InRange(g, |storage|, e.offset) && !Cached(list, e.offset)
    requires |list| < g.maxEntries && |e.data| == g.blockSize
    requires e.dirty || e.offset in g.bad || e.data == BlockOf(g, storage, e.offset)
    ensures Inv(g, storage, list + [e], Overlay(view, e.offset, e.data))
  {
    var list', view' := list + [e], Overlay(view, e.offset, e.data);
    forall i | 0 <= i < |list'|
      ensures Tied(g, storage, view', list'[i])
    {
      if i < |list| {
        TiedElsewhere(g, storage, view, e.offset, e.data, e.offset, list[i]);
      }
    }
    assert list'[|list|] == e && forall i :: 0 <= i < |list| ==> list'[i] == list[i];
    BackedAfter(g, storage, list, view, storage, list', view', e.offset);
  }

  /** A cached block after a memcpy of `d` into it. */
  function Patch(e: Entry, inBlock: nat, d: seq<byte>): (r: Entry)
    requires inBlock + |d| <= |e.data|
    ensures r.offset == e.offset && r.dirty && |r.data| == |e.data|
  {
    e.(data := Overlay(e.data, inBlock, d), dirty := true)
  }

  lemma PatchTied(g: Geometry, storage: seq<byte>, view: seq<byte>, e: Entry, inBlock: nat, d: seq<byte>)
    requires |view| == |storage| && InRange(g, |storage|, e.offset)
    requires |e.data| == g.blockSize && inBlock + |d| <= g.blockSize
    requires Tied(g, storage, view, e)
    ensures Tied(g, storage, Overlay(view, e.offset + inBlock, d), Patch(e, inBlock, d))
  {
  }

  /** Writing into a cached block and marking it dirty overlays the flat array. */
  lemma DirtyEntry(g: Geometry, storage: seq<byte>, list: seq<Entry>, view: seq<byte>, k: nat, inBlock: nat,
                   d: seq<byte>)
    requires Inv(g, storage, list, view) && k < |list| && inBlock + |d| <= g.blockSize
    ensures Inv(g, storage, list[k := Patch(list[k], inBlock, d)], Overlay(view, list[k].offset + inBlock, d))
  {
    hide Overlay, Patch, Tied, Covered, Backed;
    var e := list[k];
    var list', view' := list[k := Patch(e, inBlock, d)], Overlay(view, e.offset + inBlock, d);
    forall i | 0 <= i < |list'|
      ensures Tied(g, storage, view', list'[i])
    {
      if i == k {
        PatchTied(g, storage, view, e, inBlock, d);
      } else {
        TiedElsewhere(g, storage, view, e.offset + inBlock, d, e.offset, list[i]);
      }
    }
    assert forall i :: 0 <= i < |list| ==> list'[i].offset == list[i].offset;
    BackedAfter(g, storage, list, view, storage, list', view', e.offset);
  }

  /** The driver's bytes over a cached block: a clean entry stays what it was, a dirty one loses its bytes. */
  lemma RereadEntry(g: Geometry, storage: seq<byte>, list: seq<Entry>, view: seq<byte>, k: nat, data: seq<byte>)
    requires Inv(g, storage, list, view) && k < |list| && list[k].offset !in g.bad
    requires data == BlockOf(g, storage, list[k].offset)
    ensures Inv(g, storage, list[k := list[k].(data := data)], Overlay(view, list[k].offset, data))
    ensures !list[k].dirty ==> Overlay(view, list[k].offset, data) == view
  {
    hide Overlay, Backed, Covered;
    assert Tied(g, storage, view, list[k]);
    if list[k].dirty {
      DirtyEntry(g, storage, list, view, k, 0, data);
      OverlayAll(list[k].data, data);
      assert list[k].(data := data) == Patch(list[k], 0, data);
    } else {
      OverlaySelf(view, list[k].offset, g.blockSize);
      assert list[k := list[k].(data := data)] == list;
    }
  }

  /** A new entry for a block the driver can read. */
  lemma FilledGood(g: Geometry, storage: seq<byte>, list: seq<Entry>, view: seq<byte>, e: Entry)
    requires Inv(g, storage, list, view) && InRange(g, |storage|, e.offset) && !Cached(list, e.offset)
    requires e.data == BlockOf(g, storage, e.offset) && |list| < g.maxEntries
    ensures Inv(g, storage, list + [e], view)
  {
    UncachedStored(g, storage, list, view, e.offset);
    AppendEntry(g, storage, list, view, e);
    OverlaySelf(view, e.offset, g.blockSize);
  }

  /** A zeroed entry for a block it cannot read. */
  lemma FilledBad(g: Geometry, storage: seq<byte>, list: seq<Entry>, view: seq<byte>, e: Entry)
    requires Inv(g, storage, list, view) && InRange(g, |storage|, e.offset) && !Cached(list, e.offset)
    requires e.offset in g.bad && !e.dirty && e.data == Zeros(g.blockSize) && |list| < g.maxEntries
    ensures Inv(g, storage, list + [e], Overlay(view, e.offset, e.data))
    ensures Same(g, view, Overlay(view, e.offset, e.data))
    ensures BlockOf(g, Overlay(view, e.offset, e.data), e.offset) == e.data
  {
    AppendEntry(g, storage, list, view, e);
    PoisonSame(g, view, e.offset);
  }

  /** After a driver write of a dirty block, torn or not, the cache still holds every difference. */
  lemma FlushEntry(g: Geometry, storage: seq<byte>, list: seq<Entry>, view: seq<byte>, k: nat, torn: seq<byte>,
                   ok: bool)
    requires Inv(g, storage, list, view) && k < |list| && |torn| == g.blockSize
    requires if ok then torn == list[k].data else list[k].dirty
    ensures Inv(g, Overlay(storage, list[k].offset, torn), list[k := list[k].(dirty := !ok)], view)
  {
    var e := list[k];
    var storage', list' := Overlay(storage, e.offset, torn), list[k := e.(dirty := !ok)];
    forall i | 0 <= i < |list'|
      ensures Tied(g, storage', view, list'[i])
    {
      assert Tied(g, storage, view, list[i]);
      if i != k {
        Apart(g, |storage|, e.offset, list[i].offset);
        OverlayApart(storage, e.offset, torn, list[i].offset, list[i].offset + g.blockSize);
      }
    }
    assert forall i :: 0 <= i < |list| ==> list'[i].offset == list[i].offset;
    BackedAfter(g, storage, list, view, storage', list', view, e.offset);
  }

  /** Same survives equal memcpys. */
  lemma OverlaySame(g: Geometry, u: seq<byte>, w: seq<byte>, at: nat, d: seq<byte>)
    requires Same(g, u, w) && at + |d| <= |u|
    ensures Same(g, Overlay(u, at, d), Overlay(w, at, d))
  {
  }

  lemma SameTrans(g: Geometry, u: seq<byte>, v: seq<byte>, w: seq<byte>)
    requires Same(g, u, v) && Same(g, v, w)
    ensures Same(g, u, w)
  {
  }

  lemma Lengths(g: Geometry, storage: seq<byte>, list: seq<Entry>, view: seq<byte>)
    requires Inv(g, storage, list, view)
    ensures |view| == |storage|
  {
  }

  lemma WroteNone(g: Geometry, view: seq<byte>, at: nat, buffer: seq<byte>)
    requires at + |buffer| <= |view|
    ensures Same(g, Overlay(view, at, buffer[..0]), view)
  {
  }

  /** A written prefix grows by the chunk written next. */
  lemma WroteMore(g: Geometry, v0: seq<byte>, at: nat, buffer: seq<byte>, i: nat, j: nat, before: seq<byte>,
                  after: seq<byte>)
    requires at + |buffer| <= |v0| == |before| && i <= j <= |buffer|
    requires Same(g, Overlay(v0, at, buffer[..i]), before)
    requires Same(g, Overlay(before, at + i, buffer[i..j]), after)
    ensures Same(g, Overlay(v0, at, buffer[..j]), after)
  {
  }

  /** What happens in an unreadable block is outside Same. */
  lemma PoisonSame(g: Geometry, view: seq<byte>, offset: nat)
    requires offset in g.bad && offset + g.blockSize <= |view|
    ensures Same(g, view, Overlay(view, offset, Zeros(g.blockSize)))
  {
  }

  /** The positions of the dirty entries. */
  ghost function DirtyAt(list: seq<Entry>): set<nat> {
    set i: nat | i < |list| && list[i].dirty
  }

  /** With nothing dirty the driver holds the flat array. */
  lemma AllClean(g: Geometry, storage: seq<byte>, list: seq<Entry>, view: seq<byte>)
    requires Inv(g, storage, list, view)
    requires forall i :: 0 <= i < |list| ==> !list[i].dirty
    ensures Same(g, view, storage)
  {
  }

  // ---------- runs over the flat array ----------

  datatype Op = ReadOp(at: nat, count: nat) | WriteOp(at: nat, bytes: seq<byte>) | FlushAllOp

  /** Error code, bytes transferred, and the bytes a read returned. */
  datatype Outcome = Outcome(rv: int, n: nat, got: seq<byte>)

  ghost predicate Fits(op: Op, size: nat) {
    match op
    case ReadOp(at, count) => at + count <= size
    case WriteOp(at, bytes) => at + |bytes| <= size
    case FlushAllOp => true
  }

  /** A block the driver cannot read has bytes in the range. */
  ghost predicate Touches(g: Geometry, at: nat, len: nat) {
    exists b :: b in g.bad && b < at + len && at < b + g.blockSize
  }

  /** How a call may end: without a fault, with one, or at a block the driver cannot read. */
  ghost predicate Excused(g: Geometry, rv: int, faults: nat, faults': nat, at: nat, len: nat) {
    if rv == 0 then faults' == faults else faults' > faults || (faults' == faults && Touches(g, at, len))
  }

  /**
   What the operation does to a flat array, for the number of bytes it reports. It
   fails only for a fault of the driver or of the heap, or at an unreadable block, and
   a flush that succeeds leaves the driver with the flat array.
   */
  ghost predicate FlatStep(g: Geometry, flat: seq<byte>, op: Op, out: Outcome, flat': seq<byte>,
                           faults: nat, faults': nat, stored: seq<byte>) {
    match op
    case ReadOp(at, count) =>
      && flat' == flat && Excused(g, out.rv, faults, faults', at, count)
      && out.n == |out.got| <= count && (out.rv == 0 ==> out.n == count) && at + count <= |flat|
      && forall j :: 0 <= j < out.n && Good(g, at + j) ==> out.got[j] == flat[at + j]
    case WriteOp(at, bytes) =>
      && out.n <= |bytes| && (out.rv == 0 ==> out.n == |bytes|) && at + |bytes| <= |flat|
      && flat' == Overlay(flat, at, bytes[..out.n]) && Excused(g, out.rv, faults, faults', at, |bytes|)
    case FlushAllOp =>
      flat' == flat && (if out.rv == 0 then faults' == faults && Same(g, flat, stored) else faults' > faults)
  }

  /** A run: the flat arrays, the faults counted so far, and what the driver holds after each operation. */
  ghost predicate FlatRun(g: Geometry, ops: seq<Op>, outs: seq<Outcome>, flats: seq<seq<byte>>, faults: seq<nat>,
                          stored: seq<seq<byte>>) {
    && |outs| == |ops| && |flats| == |faults| == |stored| == |ops| + 1
    && forall i :: 0 <= i < |ops| ==>
         FlatStep(g, flats[i], ops[i], outs[i], flats[i + 1], faults[i], faults[i + 1], stored[i + 1])
  }

  lemma FlatRunExtend(g: Geometry, ops: seq<Op>, outs: seq<Outcome>, flats: seq<seq<byte>>, faults: seq<nat>,
                      stored: seq<seq<byte>>, i: nat, out: Outcome, flat: seq<byte>, fault: nat, store: seq<byte>)
    requires i < |ops| && FlatRun(g, ops[..i], outs, flats, faults, stored)
    requires FlatStep(g, flats[i], ops[i], out, flat, faults[i], fault, store)
    ensures FlatRun(g, ops[..i + 1], outs + [out], flats + [flat], faults + [fault], stored + [store])
  {
  }

  // ---------- the device ----------

  /** The state between blkcache_get adding a zeroed entry and the caller filling it. */
  ghost predicate Filling(g: Geometry, storage: seq<byte>, list: seq<Entry>, view: seq<byte>, offset: nat) {
    && |list| > 0
    && list[|list| - 1] == Entry(offset, false, Zeros(g.blockSize))
    && |list| <= g.maxEntries
    && Inv(g, storage, list[..|list| - 1], view)
    && !Cached(list[..|list| - 1], offset)
  }

  class Device {
    const g: Geometry
    /** What the driver has stored. */
    var storage: seq<byte>
    /** cache->block_list, oldest entry first. */
    var list: seq<Entry>
    var entryCount: nat

    /** The flat byte array this device stands for. */
    ghost var view: seq<byte>
    /** How many driver writes have failed and how often the heap had no memory for an entry. */
    ghost var faults: nat

    ghost predicate Valid()
      reads this
    {
      Inv(g, storage, list, view) && entryCount == |list|
    }

    /** blkcache_create over a driver holding `contents`. */
    constructor (g: Geometry, contents: seq<byte>)
      requires g.blockSize > 0 && g.maxEntries > 0 && |contents| % g.blockSize == 0
      ensures Valid() && list == [] && view == contents && storage == contents && this.g == g
    {
      this.g := g;
      storage, list, entryCount, view, faults := contents, [], 0, contents, 0;
    }

    /** drv->ops->write: it may fail, and a failed write may leave the block torn. */
    method DriverWrite(offset: nat, data: seq<byte>) returns (rv: int, ghost left: seq<byte>)
      requires offset + |data| <= |storage|
      modifies this`storage, this`faults
      ensures |left| == |data| && storage == Overlay(old(storage), offset, left)
      ensures rv == 0 ==> left == data
      ensures faults == old(faults) + if rv == 0 then 0 else 1
    {
      if * {
        storage, left := Overlay(storage, offset, data), data;
        rv := 0;
      } else {
        assert |Zeros(|data|)| == |data|;
        var torn: seq<byte> :| |torn| == |data|;
        storage, left := Overlay(storage, offset, torn), torn;
        rv, faults := EIO, faults + 1;
      }
    }

    /** blkcache_find: the position of the block's entry, or -1. */
    method Find(offset: nat) returns (k: int)
      ensures k == -1 || (0 <= k < |list| && list[k].offset == offset)
      ensures k == -1 <==> !Cached(list, offset)
    {
      k := 0;
      while k < |list|
        invariant 0 <= k <= |list|
        invariant forall j :: 0 <= j < k ==> list[j].offset != offset
      {
        if list[k].offset == offset {
          return;
        }
        k := k + 1;
      }
      k := -1;
    }

    /** blkcache_get_dirty: the position of the first dirty entry, or -1. */
    method GetDirty() returns (k: int)
      ensures k == -1 || (0 <= k < |list| && list[k].dirty && forall j :: 0 <= j < k ==> !list[j].dirty)
      ensures k == -1 ==> forall i :: 0 <= i < |list| ==> !list[i].dirty
    {
      k := 0;
      while k < |list|
        invariant 0 <= k <= |list|
        invariant forall j :: 0 <= j < k ==> !list[j].dirty
      {
        if list[k].dirty {
          return;
        }
        k := k + 1;
      }
      k := -1;
    }

    /** blkcache_get: find the block, or make room for it and add a zeroed entry. */
    method Get(offset: nat) returns (r: GetResult)
      requires Valid() && InRange(g, |storage|, offset)
      modifies this`list, this`entryCount, this`view, this`faults
      ensures entryCount == |list| && Same(g, old(view), view)
      ensures r.Got? ==> r.index < |list| && list[r.index].offset == offset
      ensures old(Cached(list, offset)) ==> r.Got? && list == old(list) && view == old(view)
      ensures r.Got? && !old(Cached(list, offset)) ==>
        r.index == |list| - 1 && Filling(g, storage, list, view, offset)
      ensures r.Blocked? <==> !old(Cached(list, offset)) && |old(list)| == g.maxEntries && old(list[0].dirty)
      ensures !r.Got? ==> list == old(list) && view == old(view)
      ensures faults == old(faults) + if r.NoMemory? then 1 else 0
      ensures r.NoMemory? ==> |old(list)| < g.maxEntries
    {
      var k := Find(offset);
      if k >= 0 {
        return Got(k);
      }
      if entryCount == g.maxEntries {
        if list[0].dirty {
          return Blocked;
        }
        view := EvictClean(g, storage, list, view);
        list := list[1..];
      } else if * {
        faults := faults + 1;
        return NoMemory;
      } else {
        entryCount := entryCount + 1;
      }
      ghost var kept := list;
      list := list + [Entry(offset, false, Zeros(g.blockSize))];
      assert list[..|list| - 1] == kept;
      r := Got(|list| - 1);
    }

    /** device_block_flush: a dirty block stays in the cache, and so in the view, until the driver has it. */
    method Flush(offset: nat) returns (rv: int)
      requires Valid()
      modifies this`storage, this`list, this`faults
      ensures |storage| == |old(storage)| && |list| == |old(list)|
      ensures rv == 0 || (forall i :: 0 <= i < |list| && list[i].offset == offset ==> old(list)[i].dirty) ==> Valid()
      ensures forall i :: 0 <= i < |list| ==> list[i] == old(list)[i] || list[i] == old(list)[i].(dirty := false)
      ensures forall i :: 0 <= i < |list| && list[i].offset == offset ==> (rv == 0 ==> !list[i].dirty)
      ensures if rv == 0 then faults == old(faults) else faults > old(faults)
    {
      var k := Find(offset);
      if k == -1 {
        return 0;
      }
      ghost var left;
      rv, left := DriverWrite(offset, list[k].data);
      if rv == 0 || list[k].dirty {
        FlushEntry(g, old(storage), list, view, k, left, rv == 0);
      }
      if rv == 0 {
        list := list[k := list[k].(dirty := false)];
      } else {
        assert list == list[k := list[k]];
      }
    }

    /** blkcache_get, and when the cache is blocked by a dirty entry: flush it and try once more. */
    method GetFlushing(offset: nat) returns (rv: int, k: nat)
      requires Valid() && InRange(g, |storage|, offset)
      modifies this`storage, this`list, this`entryCount, this`view, this`faults
      ensures |storage| == |old(storage)|
      ensures entryCount == |list| && Same(g, old(view), view)
      ensures rv == 0 ==> k < |list| && list[k].offset == offset
      ensures old(Cached(list, offset)) ==>
        rv == 0 && Valid() && view == old(view) && list == old(list) && storage == old(storage)
      ensures rv == 0 && !old(Cached(list, offset)) ==> k == |list| - 1 && Filling(g, storage, list, view, offset)
      ensures rv != 0 ==> Valid() && Cached(list, offset) == old(Cached(list, offset))
      ensures if rv == 0 then faults == old(faults) else faults > old(faults)
      ensures |old(list)| == g.maxEntries && !old(list[0].dirty) ==> rv == 0
    {
      k := 0;
      var r := Get(offset);
      if r.Blocked? {
        rv := Flush(list[0].offset);
        if rv != 0 {
          return;
        }
        assert Cached(list, offset) ==> Cached(old(list), offset);
        r := Get(offset);
      }
      assert !r.Blocked?;
      if r.NoMemory? {
        return ENOMEM, 0;
      }
      return 0, r.index;
    }

    /**
     device_block_fetch. For a block that is cached already it forgets what was not flushed; no
     caller asks for one.
     */
    method Fetch(offset: nat) returns (rv: int)
      requires Valid() && InRange(g, |storage|, offset)
      modifies this`storage, this`list, this`entryCount, this`view, this`faults
      ensures Valid() && |storage| == |old(storage)|
      ensures rv == 0 ==> Cached(list, offset) && offset !in g.bad
      ensures !old(Cached(list, offset)) ==> Same(g, old(view), view)
      ensures !old(Cached(list, offset)) && rv != 0 && Cached(list, offset) ==>
        offset in g.bad && BlockOf(g, view, offset) == Zeros(g.blockSize)
      ensures old(Cached(list, offset)) ==> (rv == 0 <==> offset !in g.bad)
      ensures old(Cached(list, offset)) ==>
        view == if rv == 0 then Overlay(old(view), offset, BlockOf(g, old(storage), offset)) else old(view)
      ensures if rv ==
        0 then faults == old(faults) else faults > old(faults) || (faults == old(faults) && offset in g.bad)
      ensures |old(list)| == g.maxEntries && !old(list[0].dirty) ==> Cached(list, offset)
    {
      hide Tied, Backed, Covered;
      var k;
      rv, k := GetFlushing(offset);
      if rv != 0 {
        return;
      }
      if offset in g.bad {
        rv := EIO;
        if !old(Cached(list, offset)) {
          ghost var kept := list[..k];
          assert list == kept + [list[k]];
          FilledBad(g, storage, kept, view, list[k]);
          view := Overlay(view, offset, list[k].data);
        }
        return;
      }
      var e := list[k].(data := storage[offset..offset + g.blockSize]);
      if old(Cached(list, offset)) {
        RereadEntry(g, storage, list, view, k, e.data);
        view := Overlay(view, offset, e.data);
      } else {
        ghost var kept := list[..k];
        assert list[k := e] == kept + [e];
        FilledGood(g, storage, kept, view, e);
      }
      list := list[k := e];
      assert list[k].offset == offset;
    }

    /** device_block_write of part of a block: read, modify, leave the write to a later flush. */
    method WritePart(block: nat, inBlock: nat, d: seq<byte>) returns (rv: int)
      requires Valid() && InRange(g, |storage|, block) && inBlock + |d| <= g.blockSize
      modifies this`storage, this`list, this`entryCount, this`view, this`faults
      ensures Valid() && |storage| == |old(storage)|
      ensures Same(g, if rv == 0 then Overlay(old(view), block + inBlock, d) else old(view), view)
      ensures |d| > 0 ==> Excused(g, rv, old(faults), faults, block + inBlock, |d|)
    {
      hide Same, Covered, Tied, Backed, Excused;
      var k := Find(block);
      ExcusedNone(g, faults, block + inBlock, |d|);
      if k == -1 {
        rv := Fetch(block);
        ExcusedBlock(g, rv, old(faults), faults, block, inBlock, |d|);
        if rv != 0 {
          return;
        }
      }
      k := Find(block);
      assert k != -1;
      OverlaySame(g, old(view), view, block + inBlock, d);
      DirtyEntry(g, storage, list, view, k, inBlock, d);
      view := Overlay(view, block + inBlock, d);
      list := list[k := Patch(list[k], inBlock, d)];
      rv := 0;
    }

    /** device_block_write of a whole block: no read needed. */
    method WriteWhole(block: nat, d: seq<byte>) returns (rv: int)
      requires Valid() && InRange(g, |storage|, block) && |d| == g.blockSize
      modifies this`storage, this`list, this`entryCount, this`view, this`faults
      ensures Valid() && |storage| == |old(storage)|
      ensures Same(g, if rv == 0 then Overlay(old(view), block, d) else old(view), view)
      ensures Excused(g, rv, old(faults), faults, block, |d|)
    {
      hide Same, Covered, Tied, Backed;
      var k;
      rv, k := GetFlushing(block);
      if rv != 0 {
        return;
      }
      OverlaySame(g, old(view), view, block, d);
      if old(Cached(list, block)) {
        DirtyEntry(g, storage, list, view, k, 0, d);
      } else {
        ghost var kept := list[..k];
        OverlayAll(list[k].data, d);
        AppendEntry(g, storage, kept, view, Patch(list[k], 0, d));
        assert list[k := Patch(list[k], 0, d)] == kept + [Patch(list[k], 0, d)];
      }
      view := Overlay(view, block, d);
      list := list[k := Patch(list[k], 0, d)];
    }

    /** One turn of the device_block_write loop: the next bytes up to the end of a block. */
    method WriteTurn(at: nat, buffer: seq<byte>, i: nat) returns (rv: int, count: nat)
      requires Valid() && at + |buffer| <= |storage| && i < |buffer|
      modifies this`storage, this`list, this`entryCount, this`view, this`faults
      ensures Valid() && |storage| == |old(storage)|
      ensures 0 < count <= |buffer| - i
      ensures Same(g, if rv == 0 then Overlay(old(view), at + i, buffer[i..i + count]) else old(view), view)
      ensures Excused(g, rv, old(faults), faults, at + i, count)
    {
      hide Same, Covered, Tied, Backed;
      var inBlock := (at + i) % g.blockSize;
      var block := at + i - inBlock;
      RoundDown(at + i, g.blockSize, |storage|);
      count := |buffer| - i;
      if count > g.blockSize - inBlock {
        count := g.blockSize - inBlock;
      }
      var d := buffer[i..i + count];
      if count != g.blockSize {
        rv := WritePart(block, inBlock, d);
      } else {
        rv := WriteWhole(block, d);
      }
    }

    /**
     device_block_write. Exactly the first `n` bytes are applied; a driver or
     memory failure in the middle stops it there. `size` is the value the caller
     had in *write_size, which an immediate failure leaves alone.
     */
    method Write(at: nat, buffer: seq<byte>, size: nat) returns (rv: int, writeSize: nat, ghost n: nat)
      requires Valid() && at + |buffer| <= |storage|
      modifies this`storage, this`list, this`entryCount, this`view, this`faults
      ensures Valid() && |storage| == |old(storage)|
      ensures n <= |buffer| && (rv == 0 ==> n == |buffer|)
      ensures writeSize == if n == 0 then size else n
      ensures Same(g, Overlay(old(view), at, buffer[..n]), view)
      ensures Excused(g, rv, old(faults), faults, at, |buffer|)
    {
      hide Overlay, Same, Inv, Excused;
      var i := 0;
      rv, n, writeSize := 0, 0, size;
      Lengths(g, storage, list, view);
      WroteNone(g, view, at, buffer);
      ExcusedNone(g, faults, at, |buffer|);
      while i != |buffer|
        invariant n == i <= |buffer|
        invariant Valid() && |storage| == |old(storage)|
        invariant writeSize == if n == 0 then size else n
        invariant Same(g, Overlay(old(view), at, buffer[..i]), view)
        invariant faults == old(faults) && rv == 0
        decreases |buffer| - i
      {
        Lengths(g, storage, list, view);
        ghost var before := view;
        var count;
        rv, count := WriteTurn(at, buffer, i);
        if rv != 0 {
          SameTrans(g, Overlay(old(view), at, buffer[..i]), before, view);
          ExcusedWider(g, rv, old(faults), faults, at + i, count, at, |buffer|);
          return;
        }
        WroteMore(g, old(view), at, buffer, i, i + count, before, view);
        ExcusedMeans(g, old(faults), faults, at + i, count);
        i := i + count;
        n, writeSize := i, i;
      }
    }

    /** One turn of the device_block_read loop. */
    method ReadChunk(block: nat, inBlock: nat, count: nat) returns (rv: int, d: seq<byte>)
      requires Valid() && InRange(g, |storage|, block) && inBlock + count <= g.blockSize
      modifies this`storage, this`list, this`entryCount, this`view, this`faults
      ensures Valid() && |storage| == |old(storage)| && Same(g, old(view), view)
      ensures rv == 0 ==> d == view[block + inBlock..block + inBlock + count]
      ensures old(Cached(list, block)) ==> rv == 0 && view == old(view)
      ensures count > 0 ==> Excused(g, rv, old(faults), faults, block + inBlock, count)
    {
      hide Inv, Same, Excused;
      d := [];
      SameSelf(g, view);
      ExcusedNone(g, faults, block + inBlock, count);
      var k := Find(block);
      if k == -1 {
        rv := Fetch(block);
        ExcusedBlock(g, rv, old(faults), faults, block, inBlock, count);
        if rv != 0 {
          return;
        }
        k := Find(block);
      }
      rv := 0;
      EntryBytes(g, storage, list, view, k, inBlock, count);
      d := list[k].data[inBlock..inBlock + count];
    }

    /**
     device_block_read into the caller's buffer: on success the buffer holds the
     bytes of the flat array, on failure a prefix of them.
     */
    method Read(at: nat, buffer: array<byte>, count: nat, size: nat) returns (rv: int, readSize: nat, ghost n: nat)
      requires Valid() && at + count <= |storage| && count <= buffer.Length
      modifies this`storage, this`list, this`entryCount, this`view, this`faults, buffer
      ensures Valid() && |storage| == |old(storage)| && Same(g, old(view), view)
      ensures n <= count && (rv == 0 ==> n == count)
      ensures readSize == if n == 0 then size else n
      ensures forall j :: 0 <= j < n && Good(g, at + j) ==> buffer[j] == old(view)[at + j]
      ensures forall j :: n <= j < buffer.Length ==> buffer[j] == old(buffer[j])
      ensures Excused(g, rv, old(faults), faults, at, count)
    {
      var i := 0;
      rv, n, readSize := 0, 0, size;
      hide Excused;
      ExcusedNone(g, faults, at, count);
      while i != count
        invariant n == i <= count
        invariant Valid() && |storage| == |old(storage)| && Same(g, old(view), view)
        invariant readSize == if n == 0 then size else n
        invariant forall j :: 0 <= j < n && Good(g, at + j) ==> buffer[j] == old(view)[at + j]
        invariant forall j :: n <= j < buffer.Length ==> buffer[j] == old(buffer[j])
        invariant faults == old(faults) && rv == 0
        decreases count - i
      {
        var inBlock := (at + i) % g.blockSize;
        var block := at + i - inBlock;
        RoundDown(at + i, g.blockSize, |storage|);
        var part := count - i;
        if part > g.blockSize - inBlock {
          part := g.blockSize - inBlock;
        }
        var d;
        rv, d := ReadChunk(block, inBlock, part);
        if rv != 0 {
          ExcusedWider(g, rv, old(faults), faults, at + i, part, at, count);
          return;
        }
        ExcusedMeans(g, old(faults), faults, at + i, part);
        forall j | 0 <= j < part {
          buffer[i + j] := d[j];
        }
        i := i + part;
        n, readSize := i, i;
      }
    }

    /** device_block_flush_all: ends, keeps the flat array, and on success the driver holds all of it. */
    method FlushAll() returns (rv: int)
      requires Valid()
      modifies this`storage, this`list, this`faults
      ensures Valid() && |storage| == |old(storage)|
      ensures rv == 0 ==> Same(g, view, storage)
      ensures if rv == 0 then faults == old(faults) else faults > old(faults)
    {
      while true
        invariant Valid() && |storage| == |old(storage)| && |list| == |old(list)| && faults == old(faults)
        decreases DirtyAt(list)
      {
        var k := GetDirty();
        if k == -1 {
          AllClean(g, storage, list, view);
          return 0;
        }
        ghost var before, held := storage, list;
        ghost var left;
        rv, left := DriverWrite(list[k].offset, list[k].data);
        FlushEntry(g, before, list, view, k, left, rv == 0);
        if rv != 0 {
          assert list == list[k := list[k].(dirty := true)];
          return;
        }
        list := list[k := list[k].(dirty := false)];
        assert k in DirtyAt(held) && k !in DirtyAt(list);
      }
    }

    /**
     Any run of reads, writes and flushes: every outcome is the one the flat
     array gives, whatever was evicted and whichever driver writes failed, and
     every failure has its fault or its unreadable block.
     */
    method Run(ops: seq<Op>)
      returns (outs: seq<Outcome>, ghost flats: seq<seq<byte>>, ghost counts: seq<nat>, ghost stored: seq<seq<byte>>)
      requires Valid() && forall i :: 0 <= i < |ops| ==> Fits(ops[i], |storage|)
      modifies this`storage, this`list, this`entryCount, this`view, this`faults
      ensures Valid() && |storage| == |old(storage)|
      ensures |outs| == |ops| && FlatRun(g, ops, outs, flats, counts, stored)
      ensures flats[0] == old(view) && Same(g, flats[|ops|], view)
      ensures counts[0] == old(faults) && counts[|ops|] == faults && stored[|ops|] == storage
    {
      hide FlatStep;
      outs, flats, counts, stored := [], [view], [faults], [storage];
      assert Same(g, view, view);
      var i := 0;
      while i < |ops|
        invariant i == |outs| <= |ops|
        invariant Valid() && |storage| == |old(storage)|
        invariant FlatRun(g, ops[..i], outs, flats, counts, stored)
        invariant flats[0] == old(view) && |flats[i]| == |view| && Same(g, flats[i], view)
        invariant counts[0] == old(faults) && counts[i] == faults && stored[i] == storage
      {
        var out;
        ghost var flat;
        out, flat := RunOne(ops[i], flats[i]);
        FlatRunExtend(g, ops, outs, flats, counts, stored, i, out, flat, faults, storage);
        outs, flats, counts, stored := outs + [out], flats + [flat], counts + [faults], stored + [storage];
        i := i + 1;
      }
      assert ops[..i] == ops;
    }

    /** One operation of a run. */
    method RunOne(op: Op, ghost flat: seq<byte>) returns (out: Outcome, ghost flat': seq<byte>)
      requires Valid() && Fits(op, |storage|) && Same(g, flat, view)
      modifies this`storage, this`list, this`entryCount, this`view, this`faults
      ensures Valid() && |storage| == |old(storage)|
      ensures FlatStep(g, flat, op, out, flat', old(faults), faults, storage) && Same(g, flat', view)
    {
      hide Covered, Tied, Backed, Shape, Excused;
      flat' := flat;
      match op
      case ReadOp(at, count) =>
        var buffer := new byte[count];
        var rv, size;
        ghost var n;
        rv, size, n := Read(at, buffer, count, 0);
        out := Outcome(rv, size, buffer[..size]);
      case WriteOp(at, bytes) =>
        var rv, size;
        ghost var n;
        rv, size, n := Write(at, bytes, 0);
        out := Outcome(rv, size, []);
        flat' := Overlay(flat, at, bytes[..n]);
        OverlaySame(g, flat, old(view), at, bytes[..n]);
        SameTrans(g, flat', Overlay(old(view), at, bytes[..n]), view);
      case FlushAllOp =>
        var rv := FlushAll();
        if rv == 0 {
          SameTrans(g, flat, view, storage);
        }
        out := Outcome(rv, 0, []);
    }
  }

  /**
   What the flat array does not cover: a block the driver cannot read. The failed
   fetch leaves a zeroed clean entry, so that the next read succeeds with zeros. It
   does so whenever the cache is full and its oldest entry clean.
   */
  method UnreadableBlock(dev: Device, block: nat) returns (first: int, kept: bool, second: int, d: seq<byte>)
    requires dev.Valid() && InRange(dev.g, |dev.storage|, block) && block in dev.g.bad && !Cached(dev.list, block)
    modifies dev
    ensures dev.Valid() && first != 0
    ensures |old(dev.list)| == dev.g.maxEntries && !old(dev.list[0].dirty) ==> kept
    ensures kept ==> second == 0 && d == Zeros(dev.g.blockSize)
  {
    hide Inv;
    first := dev.Fetch(block);
    var k := dev.Find(block);
    kept := k != -1;
    second, d := dev.ReadChunk(block, 0, dev.g.blockSize);
  }

  lemma SameSelf(g: Geometry, view: seq<byte>)
    ensures Same(g, view, view)
  {
  }

  /** A cached block's bytes are those of the flat array. */
  lemma EntryBytes(g: Geometry, storage: seq<byte>, list: seq<Entry>, view: seq<byte>, k: nat, inBlock: nat, count: nat)
    requires Inv(g, storage, list, view) && k < |list| && inBlock + count <= g.blockSize
    ensures |list[k].data| == g.blockSize && list[k].offset + g.blockSize <= |view|
    ensures list[k].data[inBlock..inBlock + count]
         == view[list[k].offset + inBlock..list[k].offset + inBlock + count]
  {
    hide Backed;
    assert Tied(g, storage, view, list[k]);
    var at := list[k].offset;
    assert view[at..at + g.blockSize][inBlock..inBlock + count] == view[at + inBlock..at + inBlock + count];
  }

  lemma ExcusedBlock(g: Geometry, rv: int, faults: nat, faults': nat, block: nat, inBlock: nat, count: nat)
    requires if rv == 0 then faults' == faults else faults' > faults || (faults' == faults && block in g.bad)
    requires inBlock + count <= g.blockSize
    ensures count > 0 ==> Excused(g, rv, faults, faults', block + inBlock, count)
  {
  }

  lemma ExcusedNone(g: Geometry, faults: nat, at: nat, len: nat)
    ensures Excused(g, 0, faults, faults, at, len)
  {
  }

  lemma ExcusedMeans(g: Geometry, faults: nat, faults': nat, at: nat, len: nat)
    requires Excused(g, 0, faults, faults', at, len)
    ensures faults' == faults
  {
  }

  lemma ExcusedWider(g: Geometry, rv: int, faults: nat, faults': nat, at: nat, len: nat, at': nat, len': nat)
    requires Excused(g, rv, faults, faults', at, len) && at' <= at && at + len <= at' + len'
    ensures Excused(g, rv, faults, faults', at', len')
  {
  }
}
