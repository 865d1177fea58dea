/**
 The kernel heap allocator (kernel/mm/heapmm.c): allocation, aligned allocation,
 sized free and core growth, mutually recursive over one free list whose
 descriptors are themselves taken from the heap.
 */
module Heap {
  import opened Arith
  import opened HeapLayout
  import opened Options

  const PAGE := 4096

  predicate IsPow2(n: nat) {
    n == 1 || (n > 1 && n % 2 == 0 && IsPow2(n / 2))
  }

  /** llist_iterate_select: the first list position the iterator accepts, or -1. */
  method Select(list: seq<Block>, accepts: Block -> bool) returns (k: int)
    ensures k == -1 || (0 <= k < |list| && accepts(list[k]))
    ensures k == -1 ==> forall i :: 0 <= i < |list| ==> !accepts(list[i])
    ensures forall i :: 0 <= i < k ==> !accepts(list[i])
  {
    k := 0;
    while k < |list|
      invariant 0 <= k <= |list|
      invariant forall i :: 0 <= i < k ==> !accepts(list[i])
    {
      if accepts(list[k]) {
        return;
      }
      k := k + 1;
    }
    k := -1;
  }

  // ---------- what the retries rely on ----------

  /** The size of the nonempty free extent that ends at `e`, or 0. */
  ghost function EndFree(list: seq<Block>, e: int): nat {
    if exists i :: 0 <= i < |list| && list[i].size > 0 && list[i].start + list[i].size == e
    then
      var i :| 0 <= i < |list| && list[i].size > 0 && list[i].start + list[i].size == e;
      list[i].size
    else 0
  }

  /** Only one extent ends at an address. */
  lemma EndFreeIs(list: seq<Block>, live: seq<Piece>, base: int, limit: int, i: nat)
    requires Tiled(list, live, base, limit) && i < |list| && list[i].size > 0
    ensures EndFree(list, list[i].start + list[i].size) == list[i].size
  {
    var e := list[i].start + list[i].size;
    forall j | 0 <= j < |list| && list[j].size > 0 && list[j].start + list[j].size == e
      ensures j == i
    {
      if j != i {
        BlocksApart(list, live, base, limit, i, j, e - 1);
      }
    }
  }

  /** heapmm_alloc_internal can serve a descriptor from this list without more core. */
  ghost predicate CanHost(list: seq<Block>) {
    exists i :: 0 <= i < |list| && (list[i].size == 0 || list[i].size >= DESC)
  }

  /** All descriptors lie below `bound`. */
  ghost predicate Below(list: seq<Block>, bound: int) {
    forall i :: 0 <= i < |list| ==> list[i].addr + DESC <= bound
  }

  lemma TiledBelow(list: seq<Block>, live: seq<Piece>, base: int, limit: int)
    requires Tiled(list, live, base, limit)
    ensures Below(list, limit)
  {
    forall i | 0 <= i < |list|
      ensures list[i].addr + DESC <= limit
    {
      BlockInside(list, live, base, limit, i, list[i].addr + DESC - 1);
    }
  }

  /** heapmm_alloc_internal moves the start of a block it shrinks, and leaves it on a perfect fit. */
  function RestStart(b: Block, n: nat): int {
    if b.size > n then b.start + n else b.start
  }

  lemma LiveInside(list: seq<Block>, live: seq<Piece>, base: int, limit: int, k: nat, a: int)
    requires Tiled(list, live, base, limit) && k < |live|
    ensures Hit(live[k].start, live[k].size, a) <= Hit(base, limit - base, a)
  {
    assert ListHits(list, a) + LiveHits(live, a) == Hit(base, limit - base, a);
    LiveHitsRemove(live, k, a);
  }

  /** Adding the padding reaches the next multiple. */
  lemma PadAligns(a: int, n: nat)
    requires n > 0
    ensures (a + (n - a % n)) % n == 0
  {
    assert a + (n - a % n) == n * (a / n + 1) + 0;
    DivUnique(n, a / n + 1, 0);
  }

  /** How serving `n` bytes at `r` changed the list. */
  ghost predicate Served(list: seq<Block>, list': seq<Block>, n: nat, r: int) {
    || (exists i :: 0 <= i < |list| && 0 < n <= list[i].size && r == list[i].start
                    && list' == Carved(list, i, n, RestStart(list[i], n)))
    || (n == DESC && exists i :: 0 <= i < |list| && list[i].size == 0 && r == list[i].addr && list' == Removed(list, i))
  }

  /** Serving a descriptor does not bring a free extent next to a live piece. */
  lemma ServedKeepsGap(list: seq<Block>, live: seq<Piece>, base: int, limit: int, k: nat, list': seq<Block>, r: int)
    requires Tiled(list, live, base, limit) && k < |live| && live[k].size > 0
    requires NoneEndsAt(list, live[k].start) && NoneStartsAt(list, live[k].start + live[k].size)
    requires Served(list, list', DESC, r)
    ensures NoneEndsAt(list', live[k].start) && NoneStartsAt(list', live[k].start + live[k].size)
  {
    if i :| 0 <= i < |list| && DESC <= list[i].size && list' == Carved(list, i, DESC, RestStart(list[i], DESC)) {
      PieceApart(list, live, base, limit, i, k, live[k].start + live[k].size - 1);
    }
  }

  lemma InitTiled(start: int, size: nat)
    ensures Layout([], [Piece(start, size)], start, start + size)
  {
  }

  // ---------- runs ----------

  datatype Op = AllocOp(size: nat) | AlignedOp(size: nat, alignment: nat) | FreeOp(index: nat)

  predicate Legal(op: Op) {
    match op
    case AllocOp(size) => size > 0
    case AlignedOp(size, alignment) => size > 0 && IsPow2(alignment)
    case FreeOp(_) => true
  }

  /** Pairwise without a common byte, all within [base, top). */
  ghost predicate Separate(held: seq<Piece>, base: int, top: int) {
    && (forall i, a :: 0 <= i < |held| && Hit(held[i].start, held[i].size, a) == 1 ==> base <= a < top)
    && (forall i, j, a :: 0 <= i < j < |held| ==>
          Hit(held[i].start, held[i].size, a) + Hit(held[j].start, held[j].size, a) <= 1)
  }

  lemma TiledSeparate(list: seq<Block>, live: seq<Piece>, base: int, limit: int)
    requires Tiled(list, live, base, limit)
    ensures Separate(live, base, limit)
  {
    forall i, a | 0 <= i < |live| && Hit(live[i].start, live[i].size, a) == 1
      ensures base <= a < limit
    {
      LiveInside(list, live, base, limit, i, a);
    }
    forall i, j, a | 0 <= i < j < |live|
      ensures Hit(live[i].start, live[i].size, a) + Hit(live[j].start, live[j].size, a) <= 1
    {
      LiveApart(list, live, base, limit, i, j, a);
    }
  }

  class Heap {
    /** heapmm_free_blocks_list. */
    var list: seq<Block>
    /** heapmm_top_of_heap. */
    var top: int
    /** heapmm_space_left. */
    var spaceLeft: nat

    const base: int
    /** The pieces callers hold, oldest first. */
    ghost var live: seq<Piece>
    /** The end of the core obtained so far; `top` until heapmm_morecore has caught up. */
    ghost var limit: int

    ghost predicate Inv()
      reads this
    {
      Layout(list, live, base, limit) && FreeBytes(list) <= spaceLeft
    }

    /** Between calls. */
    ghost predicate Valid()
      reads this
    {
      Inv() && top == limit
    }

    /** The margin by which heapmm_space_left exceeds the free bytes. */
    ghost function Slack(): int
      reads this
    {
      spaceLeft - FreeBytes(list)
    }

    /** heapmm_request_core: at least what was asked, in whole pages. */
    method RequestCore(size: nat) returns (granted: nat)
      requires size > 0
      ensures granted >= size && granted % PAGE == 0
    {
      assert size * PAGE >= size;
      var pages: nat :| pages * PAGE >= size;
      granted := pages * PAGE;
    }

    /** The searches of heapmm_alloc_internal: an empty descriptor, an exact fit, any fit. */
    method FindFit(size: nat) returns (k: int, recycle: bool)
      requires size > 0 && Below(list, top)
      ensures k == -1 || 0 <= k < |list|
      ensures k >= 0 && recycle ==> size == DESC && list[k].size == 0
      ensures k >= 0 && !recycle ==> list[k].size >= size
      ensures k >= 0 && recycle ==> forall i :: 0 <= i < k ==> list[i].size != 0
      ensures k >= 0 && !recycle && size == DESC ==> forall i :: 0 <= i < |list| ==> list[i].size != 0
      ensures k >= 0 && !recycle && list[k].size == size ==> forall i :: 0 <= i < k ==> list[i].size != size
      ensures k >= 0 && list[k].size > size ==>
        && (forall i :: 0 <= i < |list| ==> list[i].size != size)
        && (forall i :: 0 <= i < k ==> list[i].size < size)
      ensures k == -1 ==> forall i :: 0 <= i < |list| ==> list[i].size < size && (size == DESC ==> list[i].size != 0)
    {
      recycle := false;
      if size == DESC {
        k := Select(list, (b: Block) => b.size == 0);
        if k >= 0 {
          recycle := true;
          return;
        }
      }
      // heapmm_alloc_match_iterator spins forever on a descriptor above the top of the heap
      assert forall i :: 0 <= i < |list| ==> !(list[i].addr + DESC > top);
      k := Select(list, (b: Block) => b.size == size);
      if k < 0 {
        k := Select(list, (b: Block) => b.size >= size);
      }
    }

    /** Hands out the block found by FindFit. */
    method TakeAt(k: nat, size: nat, recycle: bool) returns (r: int)
      requires Inv() && k < |list| && size > 0
      requires if recycle then size == DESC && list[k].size == 0 else list[k].size >= size
      modifies this`list, this`spaceLeft, this`live
      ensures Inv() && live == old(live) + [Piece(r, size)]
      ensures Slack() >= old(Slack())
      ensures Served(old(list), list, size, r)
    {
      if recycle {
        r := list[k].addr;
        Detach(list, live, base, limit, k);
        FreeBytesRemove(list, k);
        list := Removed(list, k);
      } else {
        r := list[k].start;
        var rest := RestStart(list[k], size);
        Carve(list, live, base, limit, k, size, rest);
        FreeBytesUpdate(list, k, Carved(list, k, size, rest)[k]);
        list := Carved(list, k, size, rest);
        spaceLeft := spaceLeft - size;
      }
      live := live + [Piece(r, size)];
    }

    /** heapmm_morecore: request core at the top and free it. */
    method Morecore(size: nat)
      requires Valid() && size > 0
      modifies this
      ensures Valid() && live == old(live) && Slack() >= old(Slack())
      ensures top >= old(top) + size && CanHost(list)
      ensures EndFree(list, top) >= old(EndFree(list, top)) + PAGE - DESC
      decreases 2, 0
    {
      var granted := RequestCore(size);
      TiledBelow(list, live, base, limit);
      Grow(list, live, base, limit, granted);
      live, limit := live + [Piece(limit, granted)], limit + granted;
      ghost var j := FreeInternal(top, granted, |live| - 1);
      assert live == old(live);
      top := top + granted;
      BlockInside(list, live, base, limit, j, list[j].start + list[j].size - 1);
      EndFreeIs(list, live, base, limit, j);
    }

    /** The two searches of heapmm_free_internal for a neighbouring extent, and the merge that follows. */
    method MergeInto(f: nat)
      requires Tiled(list, live, base, limit) && f < |list| && TouchOnly(list, f)
      requires list[f].size > 0 || (NoneStartsAt(list, list[f].start) && NoneEndsAt(list, list[f].start))
      requires FreeBytes(list) <= spaceLeft
      modifies this`list
      ensures Inv() && FreeBytes(list) == old(FreeBytes(list)) && |list| == |old(list)|
      ensures list[f].start == old(list[f].start) && list[f].size >= old(list[f].size)
      ensures |list| == 1 ==> list == old(list)
    {
      var e := list[f].start + list[f].size;
      var m := Select(list, (b: Block) => b.start == e && b.size != 0);
      if m >= 0 {
        MergeNext(list, live, base, limit, f, m);
        FreeBytesUpdate(list, f, Joined(list, f, m)[f]);
        FreeBytesUpdate(list[f := Joined(list, f, m)[f]], m, Joined(list, f, m)[m]);
        list := Joined(list, f, m);
      }
      var s := list[f].start;
      var p := Select(list, (b: Block) => b.start + b.size == s && b.size != 0);
      // the extent below was tried first, so there is never one left to merge with
      assert p == -1;
    }

    /** The freed piece is inside block `f`; what is left to do is to merge `f` with the extent above it. */
    ghost predicate Placed(f: nat, address: int, size: nat, room: nat)
      reads this
    {
      && Tiled(list, live, base, limit)
      && f < |list| && TouchOnly(list, f)
      && (list[f].size > 0 || (NoneStartsAt(list, list[f].start) && NoneEndsAt(list, list[f].start)))
      && list[f].start <= address + DESC && address + size <= list[f].start + list[f].size
      && list[f].size + DESC >= size + room
    }

    /** [FREE][our block]. */
    method PlaceAbove(f: nat, address: int, size: nat, ghost k: nat)
      requires Inv() && k < |live| && live[k] == Piece(address, size) && size > 0
      requires f < |list| && list[f].size > 0 && list[f].start + list[f].size == address
      modifies this`list, this`live
      ensures live == Removed(old(live), k) && FreeBytes(list) == old(FreeBytes(list)) + size
      ensures Placed(f, address, size, old(EndFree(list, address)))
    {
      AbsorbAfter(list, live, base, limit, k, f);
      EndFreeIs(list, live, base, limit, f);
      FreeBytesUpdate(list, f, GrewUp(list, f, live[k])[f]);
      list, live := GrewUp(list, f, Piece(address, size)), Removed(live, k);
    }

    /** [our block][FREE]. */
    method PlaceBelow(f: nat, address: int, size: nat, ghost k: nat)
      requires Inv() && k < |live| && live[k] == Piece(address, size) && size > 0
      requires NoneEndsAt(list, address)
      requires f < |list| && list[f].size > 0 && list[f].start == address + size
      modifies this`list, this`live
      ensures live == Removed(old(live), k) && FreeBytes(list) == old(FreeBytes(list)) + size
      ensures Placed(f, address, size, 0)
    {
      AbsorbBefore(list, live, base, limit, k, f);
      FreeBytesUpdate(list, f, GrewDown(list, f, live[k])[f]);
      list, live := GrewDown(list, f, Piece(address, size)), Removed(live, k);
    }

    /** A new block whose descriptor is the last live piece. */
    method PlaceNew(d: int, address: int, size: nat, ghost k: nat, ghost held: seq<Piece>) returns (f: nat)
      requires Inv() && live == held + [Piece(d, DESC)] && k < |held| && held[k] == Piece(address, size) && size > 0
      requires NoneEndsAt(list, address) && NoneStartsAt(list, address + size)
      modifies this`list, this`live
      ensures live == Removed(held, k) && FreeBytes(list) == old(FreeBytes(list)) + size
      ensures Placed(f, address, size, 0)
    {
      AddBlock(list, held, base, limit, k, d);
      var b := Block(d, address, size);
      FreeBytesAppend(list, b);
      list, live, f := list + [b], Removed(held, k), |list|;
    }

    /** A new block that stores its descriptor in itself. */
    method PlaceHosted(address: int, size: nat, ghost k: nat) returns (f: nat)
      requires Inv() && k < |live| && live[k] == Piece(address, size) && size >= DESC
      requires NoneStartsAt(list, address + size)
      modifies this`list, this`live
      ensures live == Removed(old(live), k) && FreeBytes(list) == old(FreeBytes(list)) + size - DESC
      ensures Placed(f, address, size, 0) && list == old(list) + [Hosted(Piece(address, size))]
    {
      HostBlock(list, live, base, limit, k);
      NoneEndsInside(list, live, base, limit, k, address + DESC);
      FreeBytesAppend(list, Hosted(live[k]));
      list, live, f := list + [Hosted(Piece(address, size))], Removed(live, k), |list|;
    }

    /** The freed piece has no descriptor yet: allocate one, host it in the piece, or get more core and start over. */
    method FreeFar(address: int, size: nat, ghost k: nat) returns (f: int, ghost j: nat)
      requires Inv() && size > 0 && k < |live| && live[k] == Piece(address, size)
      requires Below(list, top) && NoneEndsAt(list, address) && NoneStartsAt(list, address + size)
      requires size >= DESC || CanHost(list) || top == limit
      modifies this
      ensures live == Removed(old(live), k)
      ensures f >= 0 ==> Placed(f, address, size, 0) && top == old(top) && limit == old(limit)
      ensures f >= 0 ==> spaceLeft + size - FreeBytes(list) >= old(Slack())
      ensures f == -1 ==> size < DESC && !old(CanHost(list)) && Inv() && Slack() >= old(Slack())
      ensures f == -1 ==> old(top == limit) && top == limit && top >= old(top)
      ensures f == -1 ==>
        j < |list| && list[j].start <= address + DESC && address + size <= list[j].start + list[j].size
      ensures f >= -1
      ensures old(list) == [] && size >= DESC ==> list == [Hosted(Piece(address, size))]
      decreases if size >= DESC || CanHost(list) then 1 else 3, 0
    {
      j := 0;
      var d := AllocInternal(DESC, false);
      if d.Some? {
        ServedKeepsGap(old(list), old(live), base, limit, k, list, d.value);
        f := PlaceNew(d.value, address, size, k, old(live));
      } else if size >= DESC {
        f := PlaceHosted(address, size, k);
      } else {
        Morecore(DESC);
        TiledBelow(list, live, base, limit);
        j := FreeInternal(address, size, k);
        f := -1;
      }
    }

    /** heapmm_free_internal of the live piece `k`; block `j` then holds it. */
    method FreeInternal(address: int, size: nat, ghost k: nat) returns (ghost j: nat)
      requires Inv() && size > 0 && k < |live| && live[k] == Piece(address, size)
      requires Below(list, top)
      requires size >= DESC || CanHost(list) || top == limit
      modifies this
      ensures Inv() && live == Removed(old(live), k) && Slack() >= old(Slack())
      ensures size >= DESC || old(CanHost(list)) ==> top == old(top) && limit == old(limit)
      ensures old(top == limit) ==> top == limit && top >= old(top)
      ensures j < |list| && list[j].start <= address + DESC && address + size <= list[j].start + list[j].size
      ensures list[j].size + DESC >= size + old(EndFree(list, address)) || (size < DESC && !old(CanHost(list)))
      ensures old(list) == [] && size >= DESC ==> list == [Hosted(Piece(address, size))]
      decreases if size >= DESC || CanHost(list) then 1 else 3, 1
    {
      hide Tiled, TouchOnly, ListHits, LiveHits, FreeBytes, CanHost, Below;
      var twice := Select(list, (b: Block) => b.start == address && b.size != 0);
      assert twice == -1 by {
        if twice >= 0 {
          PieceApart(list, live, base, limit, twice, k, address);
        }
      }
      var f := Select(list, (b: Block) => b.start + b.size == address && b.size != 0);
      if f >= 0 {
        PlaceAbove(f, address, size, k);
      } else {
        f := Select(list, (b: Block) => b.start == address + size && b.size != 0);
        if f >= 0 {
          PlaceBelow(f, address, size, k);
        } else {
          f, j := FreeFar(address, size, k);
          if f == -1 {
            return;
          }
        }
      }
      spaceLeft := spaceLeft + size;
      MergeInto(f);
      j := f;
    }

    /** heapmm_alloc_internal; only a call without permission to grow the heap can fail. */
    method AllocInternal(size: nat, morecore: bool) returns (r: Option<int>)
      requires Inv() && size > 0 && Below(list, top)
      requires morecore ==> top == limit
      modifies this
      ensures Inv() && Slack() >= old(Slack())
      ensures r.Some? ==> live == old(live) + [Piece(r.value, size)]
      ensures r.None? ==> !morecore && list == old(list) && live == old(live) && spaceLeft == old(spaceLeft)
      ensures !morecore ==> top == old(top) && limit == old(limit)
      ensures !morecore && r.Some? ==> Served(old(list), list, size, r.value)
      ensures !morecore && size == DESC ==> (r.Some? <==> old(CanHost(list)))
      ensures morecore ==> top == limit && top >= old(top)
      decreases if morecore then 4 else 0, if size > EndFree(list, top) then size - EndFree(list, top) else 0
    {
      if (spaceLeft - size) % 0x1_0000_0000 < 1024 && morecore {
        Morecore(PAGE);
        TiledBelow(list, live, base, limit);
      }
      var k, recycle := FindFit(size);
      if k < 0 {
        if !morecore {
          return None;
        }
        Morecore(size);
        TiledBelow(list, live, base, limit);
        r := AllocInternal(size, morecore);
        return;
      }
      var a := TakeAt(k, size, recycle);
      return Some(a);
    }

    /** heapmm_alloc: never fails, never hands out bytes above the top of the heap. */
    method Alloc(size: nat) returns (address: int)
      requires Valid() && size > 0
      modifies this
      ensures Valid() && live == old(live) + [Piece(address, size)]
    {
      TiledBelow(list, live, base, limit);
      var r := AllocInternal(size, true);
      address := r.value;
      LiveInside(list, live, base, limit, |live| - 1, address + size - 1);
      // heapmm_alloc spins forever on a result above the top of the heap
      assert !(address + size > top);
    }

    /** heapmm_free of a live piece, with its size. */
    method Free(address: int, size: nat, ghost k: nat)
      requires Valid() && size > 0 && k < |live| && live[k] == Piece(address, size)
      modifies this
      ensures Valid() && live == Removed(old(live), k)
    {
      TiledBelow(list, live, base, limit);
      ghost var j := FreeInternal(address, size, k);
    }

    /** An aligned block larger than the request: shrink it. */
    method TakeFront(k: nat, size: nat) returns (address: int)
      requires Valid() && k < |list| && 0 < size < list[k].size
      modifies this
      ensures Valid() && live == old(live) + [Piece(address, size)] && address == old(list[k].start)
      ensures Slack() >= old(Slack()) + size
    {
      address := list[k].start;
      Carve(list, live, base, limit, k, size, address + size);
      FreeBytesUpdate(list, k, Carved(list, k, size, address + size)[k]);
      list := Carved(list, k, size, address + size);
      live := live + [Piece(address, size)];
    }

    /** An aligned block of exactly the requested size: unlink it and free its descriptor. */
    method TakeWhole(k: nat, size: nat) returns (address: int)
      requires Valid() && k < |list| && 0 < size == list[k].size
      modifies this
      ensures Valid() && live == old(live) + [Piece(address, size)] && address == old(list[k].start)
      ensures Slack() >= old(Slack()) + size
    {
      address := list[k].start;
      var desc := list[k].addr;
      ghost var emptied := Carved(list, k, size, address);
      Carve(list, live, base, limit, k, size, address);
      FreeBytesUpdate(list, k, emptied[k]);
      Detach(emptied, live + [Piece(address, size)], base, limit, k);
      FreeBytesRemove(emptied, k);
      assert Removed(emptied, k) == Removed(list, k);
      list := Removed(list, k);
      live := live + [Piece(address, size)] + [Piece(desc, DESC)];
      TiledBelow(list, live, base, limit);
      ghost var j := FreeInternal(desc, DESC, |live| - 1);
      assert live == old(live) + [Piece(address, size)];
    }

    /** A block that starts unaligned: cut the request out of it and free the padding in front. */
    method TakePadded(k: nat, size: nat, padding: nat) returns (address: int)
      requires Valid() && k < |list| && 0 < size && 0 < padding && padding + size <= list[k].size
      modifies this
      ensures Valid() && live == old(live) + [Piece(address, size)] && address == old(list[k].start) + padding
      ensures Slack() >= old(Slack()) + size
    {
      var pad := list[k].start;
      address := pad + padding;
      ghost var cut := Carved(list, k, padding, address);
      Carve(list, live, base, limit, k, padding, address);
      Carve(cut, live + [Piece(pad, padding)], base, limit, k, size, address + size);
      list := list[k := Block(list[k].addr, address + size, list[k].size - (padding + size))];
      assert list == Carved(cut, k, size, address + size);
      FreeBytesUpdate(old(list), k, list[k]);
      live := live + [Piece(pad, padding)] + [Piece(address, size)];
      TiledBelow(list, live, base, limit);
      ghost var j := FreeInternal(pad, padding, |live| - 2);
      assert live == old(live) + [Piece(address, size)];
    }

    /** The searches of heapmm_alloc_alligned: an aligned fit, an exact one, one that can be split. */
    method FindAligned(size: nat, alignment: nat) returns (k: int)
      requires alignment > 0
      ensures k == -1 || (0 <= k < |list| && list[k].size >= size)
      ensures k >= 0 && list[k].start % alignment != 0 ==>
        list[k].size >= size + (alignment - list[k].start % alignment)
      ensures k == -1 ==> forall i :: 0 <= i < |list| ==> list[i].size < size + alignment
    {
      k := Select(list, (b: Block) => b.start % alignment == 0 && b.size >= size);
      if k < 0 {
        k := Select(list, (b: Block) => b.start % alignment == 0 && b.size == size);
        // an exact aligned fit would have been accepted above
        assert k == -1;
        k := Select(list, (b: Block) => b.size >= size + (alignment - b.start % alignment));
      }
    }

    /** heapmm_alloc_alligned. */
    method AllocAligned(size: nat, alignment: nat) returns (address: int)
      requires Valid() && size > 0 && IsPow2(alignment)
      modifies this
      ensures Valid() && live == old(live) + [Piece(address, size)]
      ensures address % alignment == 0
      ensures Slack() >= old(Slack())
      decreases if size + alignment > EndFree(list, top) then size + alignment - EndFree(list, top) else 0
    {
      hide Tiled, TouchOnly, ListHits, LiveHits, FreeBytes, CanHost, Below;
      if (spaceLeft - size) % 0x1_0000_0000 < 1024 {
        Morecore(PAGE);
      }
      var k := FindAligned(size, alignment);
      if k < 0 {
        Morecore(size);
        address := AllocAligned(size, alignment);
        return;
      }
      var inPage := list[k].start % alignment;
      if inPage == 0 {
        if list[k].size > size {
          address := TakeFront(k, size);
        } else {
          address := TakeWhole(k, size);
        }
      } else {
        PadAligns(list[k].start, alignment);
        address := TakePadded(k, size, alignment - inPage);
      }
      spaceLeft := spaceLeft - size;
      if spaceLeft < 512 {
        Morecore(PAGE);
      }
    }

    /** heapmm_init. */
    constructor (start: int, size: nat)
      requires size >= DESC
      ensures Valid() && live == [] && base == start && top == start + size
      ensures list == [Block(start, start + DESC, size - DESC)]
    {
      base, top, limit := start, start, start + size;
      list, spaceLeft, live := [], 0, [Piece(start, size)];
      new;
      InitTiled(start, size);
      ghost var j := FreeInternal(start, size, 0);
      assert live == [];
      top := start + size;
    }

    /** Any run of allocations and frees: what the caller holds never overlaps and stays inside the heap. */
    method Run(ops: seq<Op>) returns (held: seq<Piece>)
      requires Valid() && live == []
      requires forall i :: 0 <= i < |ops| ==> Legal(ops[i])
      modifies this
      ensures Valid() && held == live && Separate(held, base, top)
    {
      held := [];
      for i := 0 to |ops|
        invariant Valid() && held == live
      {
        match ops[i]
        case AllocOp(size) =>
          var a := Alloc(size);
          held := held + [Piece(a, size)];
        case AlignedOp(size, alignment) =>
          var a := AllocAligned(size, alignment);
          held := held + [Piece(a, size)];
        case FreeOp(k) =>
          if k < |held| && held[k].size > 0 {
            Free(held[k].start, held[k].size, k);
            held := Removed(held, k);
          }
      }
      TiledSeparate(list, live, base, limit);
    }
  }
}
