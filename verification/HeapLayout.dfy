/**
 The layout of the kernel heap (kernel/mm/heapmm.c): free-block descriptors that
 live inside the heap they describe, the free extents they describe, and the
 pieces handed out to callers.

 `Tiled` says that every byte of the heap belongs to exactly one of these and
 that none of them sticks out. The lemmas give the effect of each list update on
 that statement and on the rule that no two nonempty free extents touch.
 */
module HeapLayout {

  /** sizeof(heapmm_block_t). */
  const DESC := 16

  /** A descriptor stored at `addr` for the free extent of `size` bytes at `start`. */
  datatype Block = Block(addr: int, start: int, size: nat)

  /** Bytes in use by a caller. */
  datatype Piece = Piece(start: int, size: nat)

  function Hit(start: int, size: nat, a: int): (n: nat)
    ensures n <= 1
  {
    if start <= a < start + size then 1 else 0
  }

  /** How often the block's descriptor and extent cover address `a`. */
  function BlockHit(b: Block, a: int): nat {
    Hit(b.addr, DESC, a) + Hit(b.start, b.size, a)
  }

  function ListHits(list: seq<Block>, a: int): nat {
    if list == [] then 0 else ListHits(list[..|list| - 1], a) + BlockHit(list[|list| - 1], a)
  }

  function LiveHits(live: seq<Piece>, a: int): nat {
    if live == [] then 0 else LiveHits(live[..|live| - 1], a) + Hit(live[|live| - 1].start, live[|live| - 1].size, a)
  }

  /** Every address in [base, limit) is covered exactly once, every other address not at all. */
  ghost predicate Tiled(list: seq<Block>, live: seq<Piece>, base: int, limit: int) {
    base <= limit && forall a: int :: ListHits(list, a) + LiveHits(live, a) == Hit(base, limit - base, a)
  }

  function Removed<T>(s: seq<T>, k: nat): (r: seq<T>)
    requires k < |s|
    ensures |r| == |s| - 1
  {
    s[..k] + s[k + 1..]
  }

  // ---------- counting ----------

  lemma {:induction false} ListHitsAppend(s: seq<Block>, b: Block, a: int)
    ensures ListHits(s + [b], a) == ListHits(s, a) + BlockHit(b, a)
  {
  }

  lemma {:induction false} LiveHitsAppend(s: seq<Piece>, p: Piece, a: int)
    ensures LiveHits(s + [p], a) == LiveHits(s, a) + Hit(p.start, p.size, a)
  {
  }

  lemma {:induction false} ListHitsUpdate(s: seq<Block>, k: nat, b: Block, a: int)
    requires k < |s|
    ensures ListHits(s[k := b], a) + BlockHit(s[k], a) == ListHits(s, a) + BlockHit(b, a)
  {
    var n := |s| - 1;
    if k == n {
      assert s[k := b][..n] == s[..n];
    } else {
      ListHitsUpdate(s[..n], k, b, a);
      assert s[k := b][..n] == s[..n][k := b];
    }
  }

  lemma {:induction false} ListHitsRemove(s: seq<Block>, k: nat, a: int)
    requires k < |s|
    ensures ListHits(Removed(s, k), a) + BlockHit(s[k], a) == ListHits(s, a)
  {
    var n := |s| - 1;
    if k == n {
      assert Removed(s, k) == s[..n];
    } else {
      ListHitsRemove(s[..n], k, a);
      assert Removed(s, k) == Removed(s[..n], k) + [s[n]];
      ListHitsAppend(Removed(s[..n], k), s[n], a);
    }
  }

  lemma {:induction false} LiveHitsRemove(s: seq<Piece>, k: nat, a: int)
    requires k < |s|
    ensures LiveHits(Removed(s, k), a) + Hit(s[k].start, s[k].size, a) == LiveHits(s, a)
  {
    var n := |s| - 1;
    if k == n {
      assert Removed(s, k) == s[..n];
    } else {
      LiveHitsRemove(s[..n], k, a);
      assert Removed(s, k) == Removed(s[..n], k) + [s[n]];
      LiveHitsAppend(Removed(s[..n], k), s[n], a);
    }
  }

  lemma {:induction false} ListHitsTwo(s: seq<Block>, i: nat, j: nat, a: int)
    requires i < j < |s|
    ensures ListHits(s, a) >= BlockHit(s[i], a) + BlockHit(s[j], a)
  {
    ListHitsRemove(s, i, a);
    assert Removed(s, i)[j - 1] == s[j];
    ListHitsRemove(Removed(s, i), j - 1, a);
  }

  // ---------- consequences of tiling ----------

  /** Two different blocks share no byte. */
  lemma BlocksApart(list: seq<Block>, live: seq<Piece>, base: int, limit: int, i: nat, j: nat, a: int)
    requires Tiled(list, live, base, limit) && i < |list| && j < |list| && i != j
    ensures BlockHit(list[i], a) + BlockHit(list[j], a) <= 1
  {
    assert ListHits(list, a) + LiveHits(live, a) <= 1;
    if i < j {
      ListHitsTwo(list, i, j, a);
    } else {
      ListHitsTwo(list, j, i, a);
    }
  }

  /** A live piece shares no byte with a block, and both lie inside the heap. */
  lemma PieceApart(list: seq<Block>, live: seq<Piece>, base: int, limit: int, i: nat, k: nat, a: int)
    requires Tiled(list, live, base, limit) && i < |list| && k < |live|
    ensures BlockHit(list[i], a) + Hit(live[k].start, live[k].size, a) <= Hit(base, limit - base, a)
  {
    assert ListHits(list, a) + LiveHits(live, a) == Hit(base, limit - base, a);
    ListHitsRemove(list, i, a);
    LiveHitsRemove(live, k, a);
  }

  /** Different live pieces share no byte: callers never get overlapping memory. */
  lemma LiveApart(list: seq<Block>, live: seq<Piece>, base: int, limit: int, i: nat, j: nat, a: int)
    requires Tiled(list, live, base, limit) && i < j < |live|
    ensures Hit(live[i].start, live[i].size, a) + Hit(live[j].start, live[j].size, a) <= Hit(base, limit - base, a)
  {
    assert ListHits(list, a) + LiveHits(live, a) == Hit(base, limit - base, a);
    LiveHitsRemove(live, i, a);
    assert Removed(live, i)[j - 1] == live[j];
    LiveHitsRemove(Removed(live, i), j - 1, a);
  }

  lemma BlockInside(list: seq<Block>, live: seq<Piece>, base: int, limit: int, i: nat, a: int)
    requires Tiled(list, live, base, limit) && i < |list|
    ensures BlockHit(list[i], a) <= Hit(base, limit - base, a)
  {
    assert ListHits(list, a) + LiveHits(live, a) == Hit(base, limit - base, a);
    ListHitsRemove(list, i, a);
  }

  // ---------- no two nonempty free extents touch ----------

  /** No nonempty extent ends where another one starts, except possibly at the end of block `f`. */
  ghost predicate TouchOnly(list: seq<Block>, f: int) {
    forall i, j :: 0 <= i < |list| && 0 <= j < |list| && i != f && list[i].size > 0 && list[j].size > 0 ==>
      list[i].start + list[i].size != list[j].start
  }

  ghost predicate NoTouch(list: seq<Block>) {
    TouchOnly(list, -1)
  }

  ghost predicate NoneEndsAt(list: seq<Block>, e: int) {
    forall i :: 0 <= i < |list| && list[i].size > 0 ==> list[i].start + list[i].size != e
  }

  ghost predicate NoneStartsAt(list: seq<Block>, e: int) {
    forall i :: 0 <= i < |list| && list[i].size > 0 ==> list[i].start != e
  }

  ghost predicate Layout(list: seq<Block>, live: seq<Piece>, base: int, limit: int) {
    Tiled(list, live, base, limit) && NoTouch(list)
  }

  // ---------- the list updates of heapmm_free_internal ----------

  /** [FREE][ours]: the free extent below grows over the piece. */
  function GrewUp(list: seq<Block>, f: nat, p: Piece): (r: seq<Block>)
    requires f < |list|
    ensures |r| == |list|
  {
    list[f := list[f].(size := list[f].size + p.size)]
  }

  lemma AbsorbAfter(list: seq<Block>, live: seq<Piece>, base: int, limit: int, k: nat, f: nat)
    requires Layout(list, live, base, limit) && k < |live| && f < |list|
    requires list[f].size > 0 && list[f].start + list[f].size == live[k].start
    ensures Tiled(GrewUp(list, f, live[k]), Removed(live, k), base, limit)
    ensures TouchOnly(GrewUp(list, f, live[k]), f)
  {
    var list' := GrewUp(list, f, live[k]);
    forall a: int
      ensures ListHits(list', a) + LiveHits(Removed(live, k), a) == Hit(base, limit - base, a)
    {
      assert ListHits(list, a) + LiveHits(live, a) == Hit(base, limit - base, a);
      ListHitsUpdate(list, f, list'[f], a);
      LiveHitsRemove(live, k, a);
    }
  }

  /** The free extent right above block `f` joins it and leaves an empty descriptor. */
  function Joined(list: seq<Block>, f: nat, m: nat): (r: seq<Block>)
    requires f < |list| && m < |list|
    ensures |r| == |list|
  {
    list[f := list[f].(size := list[f].size + list[m].size)][m := list[m].(size := 0)]
  }

  lemma MergeNext(list: seq<Block>, live: seq<Piece>, base: int, limit: int, f: nat, m: nat)
    requires Tiled(list, live, base, limit) && TouchOnly(list, f)
    requires f < |list| && m < |list| && f != m && list[m].size > 0
    requires list[f].start + list[f].size == list[m].start
    ensures Layout(Joined(list, f, m), live, base, limit)
  {
    var grown := list[f := list[f].(size := list[f].size + list[m].size)];
    var list' := Joined(list, f, m);
    forall a: int
      ensures ListHits(list', a) + LiveHits(live, a) == Hit(base, limit - base, a)
    {
      assert ListHits(list, a) + LiveHits(live, a) == Hit(base, limit - base, a);
      ListHitsUpdate(list, f, grown[f], a);
      ListHitsUpdate(grown, m, list'[m], a);
    }
  }

  /** [ours][FREE]: the free extent above grows down over the piece. */
  function GrewDown(list: seq<Block>, f: nat, p: Piece): (r: seq<Block>)
    requires f < |list|
    ensures |r| == |list|
  {
    list[f := Block(list[f].addr, p.start, list[f].size + p.size)]
  }

  lemma AbsorbBefore(list: seq<Block>, live: seq<Piece>, base: int, limit: int, k: nat, f: nat)
    requires Layout(list, live, base, limit) && k < |live| && f < |list| && live[k].size > 0
    requires list[f].size > 0 && live[k].start + live[k].size == list[f].start
    requires NoneEndsAt(list, live[k].start)
    ensures Layout(GrewDown(list, f, live[k]), Removed(live, k), base, limit)
  {
    var list' := GrewDown(list, f, live[k]);
    forall a: int
      ensures ListHits(list', a) + LiveHits(Removed(live, k), a) == Hit(base, limit - base, a)
    {
      assert ListHits(list, a) + LiveHits(live, a) == Hit(base, limit - base, a);
      ListHitsUpdate(list, f, list'[f], a);
      LiveHitsRemove(live, k, a);
    }
  }

  /** A descriptor allocated elsewhere (the last live piece) describes the freed piece `k`. */
  lemma AddBlock(list: seq<Block>, live: seq<Piece>, base: int, limit: int, k: nat, d: int)
    requires Layout(list, live + [Piece(d, DESC)], base, limit) && k < |live|
    requires NoneEndsAt(list, live[k].start) && NoneStartsAt(list, live[k].start + live[k].size)
    ensures Layout(list + [Block(d, live[k].start, live[k].size)], Removed(live, k), base, limit)
  {
    var b := Block(d, live[k].start, live[k].size);
    forall a: int
      ensures ListHits(list + [b], a) + LiveHits(Removed(live, k), a) == Hit(base, limit - base, a)
    {
      assert ListHits(list, a) + LiveHits(live + [Piece(d, DESC)], a) == Hit(base, limit - base, a);
      LiveHitsAppend(live, Piece(d, DESC), a);
      LiveHitsRemove(live, k, a);
      ListHitsAppend(list, b, a);
    }
  }

  /** A block that stores its own descriptor in the first bytes of the freed piece. */
  function Hosted(p: Piece): (b: Block)
    requires p.size >= DESC
    ensures b.addr == p.start && b.start + b.size == p.start + p.size
  {
    Block(p.start, p.start + DESC, p.size - DESC)
  }

  /** No free extent ends inside a live piece. */
  lemma NoneEndsInside(list: seq<Block>, live: seq<Piece>, base: int, limit: int, k: nat, e: int)
    requires Tiled(list, live, base, limit) && k < |live|
    requires live[k].start < e <= live[k].start + live[k].size
    ensures NoneEndsAt(list, e)
  {
    forall i | 0 <= i < |list| && list[i].size > 0
      ensures list[i].start + list[i].size != e
    {
      PieceApart(list, live, base, limit, i, k, e - 1);
    }
  }

  lemma HostBlock(list: seq<Block>, live: seq<Piece>, base: int, limit: int, k: nat)
    requires Layout(list, live, base, limit) && k < |live| && live[k].size >= DESC
    requires NoneStartsAt(list, live[k].start + live[k].size)
    ensures Layout(list + [Hosted(live[k])], Removed(live, k), base, limit)
  {
    var b := Hosted(live[k]);
    assert NoTouch(list + [b]) by {
      NoneEndsInside(list, live, base, limit, k, b.start);
    }
    forall a: int
      ensures ListHits(list + [b], a) + LiveHits(Removed(live, k), a) == Hit(base, limit - base, a)
    {
      assert ListHits(list, a) + LiveHits(live, a) == Hit(base, limit - base, a);
      LiveHitsRemove(live, k, a);
      ListHitsAppend(list, b, a);
    }
  }

  // ---------- the list updates of heapmm_alloc_internal ----------

  /** The front of a free extent is handed out; `rest` is where the descriptor then says the extent starts. */
  function Carved(list: seq<Block>, i: nat, n: nat, rest: int): (r: seq<Block>)
    requires i < |list| && n <= list[i].size
    ensures |r| == |list|
  {
    list[i := Block(list[i].addr, rest, list[i].size - n)]
  }

  lemma Carve(list: seq<Block>, live: seq<Piece>, base: int, limit: int, i: nat, n: nat, rest: int)
    requires Layout(list, live, base, limit) && i < |list| && 0 < n <= list[i].size
    requires list[i].size > n ==> rest == list[i].start + n
    ensures Layout(Carved(list, i, n, rest), live + [Piece(list[i].start, n)], base, limit)
  {
    var list' := Carved(list, i, n, rest);
    var p := Piece(list[i].start, n);
    forall a: int
      ensures ListHits(list', a) + LiveHits(live + [p], a) == Hit(base, limit - base, a)
    {
      assert ListHits(list, a) + LiveHits(live, a) == Hit(base, limit - base, a);
      ListHitsUpdate(list, i, list'[i], a);
      LiveHitsAppend(live, p, a);
    }
    forall j, j' | 0 <= j < |list| && 0 <= j' < |list| && list'[j].size > 0 && list'[j'].size > 0
      ensures list'[j].start + list'[j].size != list'[j'].start
    {
      if j != i && j' == i {
        BlocksApart(list, live, base, limit, i, j, list[i].start + n - 1);
      }
    }
  }

  /** An empty block's descriptor is handed out as memory. */
  lemma Detach(list: seq<Block>, live: seq<Piece>, base: int, limit: int, i: nat)
    requires Layout(list, live, base, limit) && i < |list| && list[i].size == 0
    ensures Layout(Removed(list, i), live + [Piece(list[i].addr, DESC)], base, limit)
  {
    var p := Piece(list[i].addr, DESC);
    forall a: int
      ensures ListHits(Removed(list, i), a) + LiveHits(live + [p], a) == Hit(base, limit - base, a)
    {
      assert ListHits(list, a) + LiveHits(live, a) == Hit(base, limit - base, a);
      ListHitsRemove(list, i, a);
      LiveHitsAppend(live, p, a);
    }
  }

  /** New core at the top is one more live piece until it is freed. */
  lemma Grow(list: seq<Block>, live: seq<Piece>, base: int, limit: int, n: nat)
    requires Layout(list, live, base, limit)
    ensures Layout(list, live + [Piece(limit, n)], base, limit + n)
  {
  }

  // ---------- free bytes ----------

  function FreeBytes(list: seq<Block>): nat {
    if list == [] then 0 else FreeBytes(list[..|list| - 1]) + list[|list| - 1].size
  }

  lemma {:induction false} FreeBytesAppend(s: seq<Block>, b: Block)
    ensures FreeBytes(s + [b]) == FreeBytes(s) + b.size
  {
  }

  lemma {:induction false} FreeBytesUpdate(s: seq<Block>, k: nat, b: Block)
    requires k < |s|
    ensures FreeBytes(s[k := b]) + s[k].size == FreeBytes(s) + b.size
  {
    var n := |s| - 1;
    if k == n {
      assert s[k := b][..n] == s[..n];
    } else {
      FreeBytesUpdate(s[..n], k, b);
      assert s[k := b][..n] == s[..n][k := b];
    }
  }

  lemma {:induction false} FreeBytesRemove(s: seq<Block>, k: nat)
    requires k < |s|
    ensures FreeBytes(Removed(s, k)) + s[k].size == FreeBytes(s)
  {
    var n := |s| - 1;
    if k == n {
      assert Removed(s, k) == s[..n];
    } else {
      FreeBytesRemove(s[..n], k);
      assert Removed(s, k) == Removed(s[..n], k) + [s[n]];
      FreeBytesAppend(Removed(s[..n], k), s[n]);
    }
  }
}
