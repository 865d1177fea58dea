/**
 Files on ext2 (fs/ext2/inode.c over fs/ext2/inoblk.c and fs/ext2/blkmgr.c):
 looking up and setting block pointers, and reading and writing bytes through
 them, with holes that read as zero.
 */
module Ext2File {
  import opened Arith
  import opened Bytes
  import opened Ext2Tree
  import opened Options
  import Bitmap = Ext2Bitmap

  const EIO := 5
  const EINVAL := 22
  const ENOSPC := 28

  ghost function Used(s: Bitmap.Shape, groups: seq<Bitmap.Group>): iset<nat>
    requires s.perGroup > 0
  {
    iset id: nat | Bitmap.InUse(s, groups, id)
  }

  /** Every pointer of the inode is the same. */
  ghost predicate SameVals(N: nat, disk: seq<seq<byte>>, root: seq<nat>, disk': seq<seq<byte>>, root': seq<nat>) {
    forall q :: IsSlot(N, q) ==> Val(disk', root', q) == Val(disk, root, q)
  }

  /** Every data block the inode points to holds the same bytes. */
  ghost predicate DataKept(N: nat, disk: seq<seq<byte>>, root: seq<nat>, disk': seq<seq<byte>>) {
    |disk'| == |disk| && forall q :: IsLeaf(N, q) && 0 < Val(disk, root, q) < |disk| ==>
      disk'[Val(disk, root, q)] == disk[Val(disk, root, q)]
  }

  /** The data pointers, seen as a table indexed by file block number. */
  ghost predicate LeafSet(N: nat, disk: seq<seq<byte>>, root: seq<nat>, disk': seq<seq<byte>>, root': seq<nat>,
                          leaf: seq<nat>, v: nat) {
    forall q :: IsLeaf(N, q) ==> Val(disk', root', q) == if q == leaf then v else Val(disk, root, q)
  }

  /** One pointer changes, all others stay. */
  ghost predicate SlotSet(N: nat, disk: seq<seq<byte>>, root: seq<nat>, disk': seq<seq<byte>>, root': seq<nat>,
                          slot: seq<nat>, v: nat) {
    forall q :: IsSlot(N, q) ==> Val(disk', root', q) == if q == slot then v else Val(disk, root, q)
  }

  /** Pointer blocks that exist stay where they are, and only the inode itself gets new ones. */
  ghost predicate InnerKept(N: nat, disk: seq<seq<byte>>, root: seq<nat>, disk': seq<seq<byte>>, root': seq<nat>) {
    forall q :: IsInner(N, q) && (Val(disk, root, q) != 0 || |q| > 1) ==> Val(disk', root', q) == Val(disk, root, q)
  }

  /** So do data pointers that are set. */
  ghost predicate SlotsKept(N: nat, disk: seq<seq<byte>>, root: seq<nat>, disk': seq<seq<byte>>, root': seq<nat>) {
    forall q :: IsSlot(N, q) && (Val(disk, root, q) != 0 || (IsInner(N, q) && |q| > 1)) ==>
      Val(disk', root', q) == Val(disk, root, q)
  }

  ghost predicate SameLeaves(N: nat, disk: seq<seq<byte>>, root: seq<nat>, disk': seq<seq<byte>>, root': seq<nat>) {
    forall q :: IsLeaf(N, q) ==> Val(disk', root', q) == Val(disk, root, q)
  }

  lemma {:induction false} EmptyInode(N: nat, disk: seq<seq<byte>>, root: seq<nat>, q: seq<nat>)
    requires IsSlot(N, q) && forall i :: 0 <= i < |root| ==> root[i] == 0
    ensures Val(disk, root, q) == 0
    decreases |q|
  {
    if |q| > 1 {
      ParentIsInner(N, q);
      EmptyInode(N, disk, root, Parent(q));
    }
  }

  /** Without the first pointer block of a triply indirect path nothing below it exists. */
  lemma TopPath(N: nat, disk: seq<seq<byte>>, root: seq<nat>, off: nat, path: seq<nat>)
    requires Blocked(N, disk, root) && off < N && |path| == 4 && path[..2] == [14, off]
    ensures IsSlot(N, [14]) && IsInner(N, [14, off]) && Val(disk, root, [14]) == root[14]
    ensures Parent([14, off]) == [14] && Last([14, off]) == off
    ensures Val(disk, root, [14, off]) == 0 ==> Val(disk, root, path) == 0
    ensures root[14] == 0 ==> Val(disk, root, [14, off]) == 0
  {
    assert Parent(Parent(path)) == [14, off];
  }

  /** Writing to a block that was free changes no pointer and no data of the inode. */
  lemma FreshWritten(N: nat, disk: seq<seq<byte>>, root: seq<nat>, used: iset<nat>, used': iset<nat>, x: nat,
                     data: seq<byte>)
    requires Sound(N, disk, root, used) && used <= used' && 0 < x < |disk| && x !in used && |data| == 4 * N
    ensures SameVals(N, disk, root, disk[x := data], root) && DataKept(N, disk, root, disk[x := data])
    ensures Sound(N, disk[x := data], root, used')
  {
    forall q | IsSlot(N, q)
      ensures Val(disk[x := data], root, q) == Val(disk, root, q)
    {
      ValFrame(N, disk, root, x, data, q);
    }
  }

  /** Block 0 is nobody's pointer block: writing into it changes no pointer. */
  lemma VoidWritten(N: nat, disk: seq<seq<byte>>, root: seq<nat>, used: iset<nat>, data: seq<byte>)
    requires Sound(N, disk, root, used) && 0 < |disk| && |data| == 4 * N
    ensures SameVals(N, disk, root, disk[0 := data], root) && DataKept(N, disk, root, disk[0 := data])
    ensures Sound(N, disk[0 := data], root, used)
  {
    forall q | IsSlot(N, q)
      ensures Val(disk[0 := data], root, q) == Val(disk, root, q)
    {
      ValFrame(N, disk, root, 0, data, q);
    }
  }

  /** Storing an unreferenced block in a data pointer sets exactly that pointer. */
  lemma LeafWritten(N: nat, disk: seq<seq<byte>>, root: seq<nat>, used: iset<nat>, leaf: seq<nat>, v: nat)
    requires Sound(N, disk, root, used) && IsLeaf(N, leaf) && |leaf| > 1 && v < |disk| <= 0x1_0000_0000
    requires Val(disk, root, Parent(leaf)) != 0
    requires Linkable(N, disk, root, used, v)
    ensures var b := Val(disk, root, Parent(leaf));
            b < |disk| && |disk[b]| == 4 * N && Last(leaf) < N
            && var disk' := disk[b := PutWord(disk[b], Last(leaf), v)];
               Sound(N, disk', root, used) && SlotSet(N, disk, root, disk', root, leaf, v)
               && DataKept(N, disk, root, disk') && (v != 0 ==> disk'[v] == disk[v])
  {
    ParentIsInner(N, leaf);
    var b := Val(disk, root, Parent(leaf));
    var disk' := disk[b := PutWord(disk[b], Last(leaf), v)];
    forall q | IsSlot(N, q)
      ensures Val(disk', root, q) == if q == leaf then v else Val(disk, root, q)
    {
      ValSetWord(N, disk, root, used, leaf, v, q);
    }
    SoundUpdate(N, disk, root, used, disk', root, used, leaf, v);
  }

  lemma DirectWritten(N: nat, disk: seq<seq<byte>>, root: seq<nat>, used: iset<nat>, n: nat, v: nat, free: nat)
    requires N > 0 && Sound(N, disk, root, used) && n < 12
    requires Linkable(N, disk, root, used, v)
    ensures Sound(N, disk, root[n := v], used) && LeafSet(N, disk, root, disk, root[n := v], [n], v)
    ensures InnerKept(N, disk, root, disk, root[n := v])
    ensures StillFree(N, disk, root, used, disk, root[n := v], used, v)
    ensures Settled(N, disk, root, used, free, disk, free, 0, n, v)
  {
    forall q | IsSlot(N, q)
      ensures Val(disk, root[n := v], q) == if q == [n] then v else Val(disk, root, q)
    {
      ValSetDirect(N, disk, root, n, v, q);
    }
    SoundUpdate(N, disk, root, used, disk, root[n := v], used, [n], v);
  }

  /** A block that may be stored in a data pointer: none, or in use and not pointed to. */
  ghost predicate Linkable(N: nat, disk: seq<seq<byte>>, root: seq<nat>, used: iset<nat>, v: nat) {
    v < |disk| && (v == 0 || (v in used && forall q :: IsSlot(N, q) ==> Val(disk, root, q) != v))
  }

  lemma PointerAt(N: nat, disk: seq<seq<byte>>, root: seq<nat>, used: iset<nat>, prefix: seq<nat>, i: nat, j: nat)
    requires Sound(N, disk, root, used) && i < N && j < N
    requires IsInner(N, prefix + [i]) && IsLeaf(N, prefix + [i] + [j]) && prefix != []
    ensures Val(disk, root, prefix) != 0 ==>
      Val(disk, root, prefix) < |disk| && Val(disk, root, prefix + [i]) == Word(disk[Val(disk, root, prefix)], i)
    ensures Parent(prefix + [i] + [j]) == prefix + [i] && Last(prefix + [i] + [j]) == j
    ensures Val(disk, root, prefix) == 0 ==> Val(disk, root, prefix + [i]) == 0
    ensures Val(disk, root, prefix + [i]) == 0 ==> Val(disk, root, prefix + [i] + [j]) == 0
    ensures Val(disk, root, prefix + [i]) != 0 ==>
      Val(disk, root, prefix + [i]) < |disk|
      && Val(disk, root, prefix + [i] + [j]) == Word(disk[Val(disk, root, prefix + [i])], j)
  {
  }

  lemma StillLinkable(N: nat, disk: seq<seq<byte>>, root: seq<nat>, used: iset<nat>,
                      disk': seq<seq<byte>>, used': iset<nat>, v: nat)
    requires Linkable(N, disk, root, used, v) && SameVals(N, disk, root, disk', root)
    requires used <= used' && |disk'| == |disk|
    ensures Linkable(N, disk', root, used', v)
  {
  }

  lemma SameValAt(N: nat, disk: seq<seq<byte>>, root: seq<nat>, disk': seq<seq<byte>>, q: seq<nat>)
    requires SameVals(N, disk, root, disk', root) && IsSlot(N, q)
    ensures Val(disk', root, q) == Val(disk, root, q)
  {
  }

  /** An update that keeps every pointer, followed by one that sets a data pointer. */
  lemma Compose(N: nat, disk: seq<seq<byte>>, root: seq<nat>, mid: seq<seq<byte>>, disk': seq<seq<byte>>,
                leaf: seq<nat>, v: nat)
    requires SameVals(N, disk, root, mid, root) && DataKept(N, disk, root, mid) && DataKept(N, mid, root, disk')
    ensures DataKept(N, disk, root, disk')
    ensures SameVals(N, mid, root, disk', root) ==> SameVals(N, disk, root, disk', root)
    ensures SlotSet(N, mid, root, disk', root, leaf, v) ==> SlotSet(N, disk, root, disk', root, leaf, v)
  {
  }

  /** The doubly indirect block number arithmetic. */
  method ReduceDoubly(N: nat, blockId: nat, ghost i: nat, ghost j: nat) returns (off: nat, left: nat)
    requires i < N && j < N && blockId == 12 + N + (N * i + j)
    ensures off == i && left == 12 + j
  {
    DivUnique(N, i, j);
    off := (blockId - (12 + N)) / N;
    assert off * N == N * i;
    left := blockId - (N + off * N);
  }

  predicate InnerPresent(N: nat, disk: seq<seq<byte>>, root: seq<nat>, n: nat)
    requires N > 0
  {
    n < 12 + N || Val(disk, root, Parent(PathOf(N, n))) != 0
  }

  /**
   The triply indirect path breaks off at its first pointer block, and block 0 has a nonzero word
   where the walk looks.
   */
  ghost predicate Stray(N: nat, disk: seq<seq<byte>>, root: seq<nat>, n: nat)
    requires N > 0
  {
    n >= 12 + N + N * N
    && Val(disk, root, PathOf(N, n)[..2]) == 0 && Void(disk, PathOf(N, n)[2]) != 0
  }

  // ---------- what setting a block pointer costs, and where it stores ----------

  function One(pointer: nat): nat {
    if pointer == 0 then 1 else 0
  }

  /** Word `i` of block 0, where the walk goes on after a missing pointer. */
  ghost function Void(disk: seq<seq<byte>>, i: nat): nat {
    if |disk| > 0 && 4 * i + 4 <= |disk[0]| then Word(disk[0], i) else 0
  }

  /** The blocks ext2_set_block_id allocates on its way to file block `n`, linked or not. */
  ghost function Needed(N: nat, disk: seq<seq<byte>>, root: seq<nat>, n: nat): nat
    requires N > 0
  {
    var path := PathOf(N, n);
    if |path| == 1 then 0
    else if |path| == 2 then One(Val(disk, root, path[..1]))
    else if |path| == 3 then One(Val(disk, root, path[..1])) + One(Val(disk, root, path[..2]))
    else One(Val(disk, root, path[..1])) + NeededBelow(disk, root, path)
  }

  /** The part of it below the triply indirect block. */
  ghost function NeededBelow(disk: seq<seq<byte>>, root: seq<nat>, path: seq<nat>): nat
    requires |path| == 4
  {
    if Val(disk, root, path[..2]) == 0 then 1 + One(Void(disk, path[2])) else One(Val(disk, root, path[..3]))
  }

  /** The block that gets the pointer, if it existed before; -1 for the inode and for a new block. */
  ghost function Landing(N: nat, disk: seq<seq<byte>>, root: seq<nat>, n: nat): int
    requires N > 0
  {
    var path := PathOf(N, n);
    if |path| == 1 || (|path| == 2 && Val(disk, root, path[..1]) == 0) then -1
    else if |path| == 4 && Val(disk, root, path[..2]) == 0 then Void(disk, path[2])
    else Val(disk, root, Parent(path))
  }

  /** What a call that takes `cost` blocks does to the number of free ones: it fails exactly when there are too few. */
  predicate Paid(was: nat, now: nat, status: int, cost: nat) {
    if status == 0 then was == now + cost else status == ENOSPC && now == 0 && was < cost
  }

  /** Block 0 and every block in use keep their bytes, except that word `off` of block `at` becomes `v`. */
  ghost predicate Stored(disk: seq<seq<byte>>, used: iset<nat>, disk': seq<seq<byte>>, at: int, off: nat, v: nat) {
    && |disk'| == |disk|
    && forall b: nat :: b < |disk| && (b == 0 || b in used) ==>
         disk'[b] == if b == at && 4 * off + 4 <= |disk[b]| && v < 0x1_0000_0000
                     then PutWord(disk[b], off, v) else disk[b]
  }

  lemma StoredNothing(N: nat, disk: seq<seq<byte>>, root: seq<nat>, used: iset<nat>, disk': seq<seq<byte>>, off: nat,
                      v: nat)
    requires Stored(disk, used, disk', -1, 0, 0) && Linkable(N, disk, root, used, v)
    ensures Stored(disk, used, disk', -1, off, v) && v < |disk| == |disk'| && (v != 0 ==> disk'[v] == disk[v])
  {
  }

  lemma VoidKept(disk: seq<seq<byte>>, used: iset<nat>, disk': seq<seq<byte>>, i: nat)
    requires Stored(disk, used, disk', -1, 0, 0)
    ensures Void(disk', i) == Void(disk, i) && |disk'| == |disk| && (|disk| > 0 ==> disk'[0] == disk[0])
  {
  }

  lemma StoredAfter(disk: seq<seq<byte>>, used: iset<nat>, mid: seq<seq<byte>>, used': iset<nat>,
                    disk': seq<seq<byte>>, at: int, off: nat, v: nat)
    requires Stored(disk, used, mid, -1, 0, 0) && Stored(mid, used', disk', at, off, v) && used <= used'
    ensures Stored(disk, used, disk', at, off, v)
    ensures at > 0 && at !in used ==> Stored(disk, used, disk', -1, off, v)
  {
  }

  /**
   Everything ext2_set_block_id does besides setting the pointer of file block
   `n`: the blocks it takes, when it fails, and the one block in use it writes to.
   */
  ghost predicate Settled(N: nat, disk: seq<seq<byte>>, root: seq<nat>, used: iset<nat>, was: nat,
                          disk': seq<seq<byte>>, now: nat, status: int, n: nat, v: nat)
    requires N > 0
  {
    var at := Landing(N, disk, root, n);
    && Paid(was, now, if status == EIO then 0 else status, Needed(N, disk, root, n))
    && (status == EIO ==> Stray(N, disk, root, n) && at >= |disk|) && (at >= |disk| ==> status != 0)
    && Stored(disk, used, disk', if status == 0 then at else -1, Last(PathOf(N, n)), v)
  }

  lemma SinglySettled(N: nat, disk: seq<seq<byte>>, root: seq<nat>, used: iset<nat>, was: nat,
                      disk': seq<seq<byte>>, now: nat, status: int, n: nat, v: nat)
    requires Sound(N, disk, root, used) && 12 <= n < 12 + N && Paid(was, now, status, One(root[12]))
    requires Stored(disk, used, disk', if status == 0 && root[12] != 0 then root[12] else -1, n - 12, v)
    ensures Settled(N, disk, root, used, was, disk', now, status, n, v)
  {
    assert PathOf(N, n)[..1] == [12] && IsSlot(N, [12]);
    RootVal(disk, root, 12);
  }

  lemma DoublySettled(N: nat, disk: seq<seq<byte>>, root: seq<nat>, used: iset<nat>, was: nat,
                      disk': seq<seq<byte>>, now: nat, status: int, n: nat, v: nat, i: nat, j: nat)
    requires |disk| > 0 && N > 0 && Sound(N, disk, root, used) && PathOf(N, n) == [13] + [i] + [j] && i < N && j < N
    requires Paid(was, now, status, One(root[13]) + One(Val(disk, root, [13] + [i])))
    requires Stored(disk, used, disk', if status == 0 then Val(disk, root, [13] + [i]) else -1, j, v)
    ensures Settled(N, disk, root, used, was, disk', now, status, n, v)
  {
    assert PathOf(N, n)[..1] == [13] && PathOf(N, n)[..2] == [13] + [i];
    RootVal(disk, root, 13);
    assert IsSlot(N, [13] + [i]);
  }

  lemma TriplySettled(N: nat, disk: seq<seq<byte>>, root: seq<nat>, used: iset<nat>, was: nat, disk': seq<seq<byte>>,
                      now: nat, status: int, n: nat, v: nat, off: nat, i: nat, j: nat)
    requires N > 0 && Sound(N, disk, root, used) && PathOf(N, n) == [14, off, i, j] && off < N && i < N && j < N
    requires Paid(was, now, if status == EIO then 0 else status,
                  One(root[14]) + NeededBelow(disk, root, [14, off, i, j]))
    requires Stored(disk, used, disk',
                    if status != 0 then -1 else if Val(disk, root, [14, off]) == 0 then Void(disk, i)
                    else Val(disk, root, [14, off] + [i]), j, v)
    requires Val(disk, root, [14, off]) == 0 && Void(disk, i) >= |disk| ==> status != 0
    requires status == EIO ==> Val(disk, root, [14, off]) == 0 && Void(disk, i) >= |disk| > 0
    ensures Settled(N, disk, root, used, was, disk', now, status, n, v)
  {
    TriplyCost(N, disk, root, n, off, i, j);
    assert IsSlot(N, [14, off] + [i]);
  }

  /** No pointer on the way to slot `q` is `at`. */
  ghost predicate Clear(disk: seq<seq<byte>>, root: seq<nat>, q: seq<nat>, at: int) {
    forall k :: 1 <= k < |q| ==> Val(disk, root, q[..k]) != at
  }

  /** The lookups that do not pass through block `at`, or through a new triply indirect block, are as before. */
  ghost predicate AsBefore(N: nat, disk: seq<seq<byte>>, root: seq<nat>, disk': seq<seq<byte>>, root': seq<nat>,
                           at: int) {
    forall q :: IsSlot(N, q) && Clear(disk, root, q, at) && (q[0] != 14 || (|root| == 15 && root[14] != 0)) ==>
      Val(disk', root', q) == Val(disk, root, q)
  }

  lemma {:induction false} LookupBefore(N: nat, disk: seq<seq<byte>>, root: seq<nat>, used: iset<nat>,
                                        disk': seq<seq<byte>>, root': seq<nat>, at: int, off: nat, v: nat, q: seq<nat>)
    requires Sound(N, disk, root, used) && Stored(disk, used, disk', at, off, v)
    requires |root'| == 15 && root' == root[14 := root'[14]] && (root[14] != 0 ==> root'[14] == root[14])
    requires IsSlot(N, q) && Clear(disk, root, q, at) && (q[0] != 14 || root[14] != 0)
    ensures Val(disk', root', q) == Val(disk, root, q)
    decreases |q|
  {
    if |q| > 1 {
      ParentIsInner(N, q);
      var p := Parent(q);
      assert p == q[..|q| - 1] && forall k :: 1 <= k < |p| ==> p[..k] == q[..k];
      LookupBefore(N, disk, root, used, disk', root', at, off, v, p);
    }
  }

  /** Wherever ext2_set_block_id stores the pointer, lookups that do not pass through that block are as before. */
  lemma StrayLookups(N: nat, disk: seq<seq<byte>>, root: seq<nat>, used: iset<nat>, was: nat, disk': seq<seq<byte>>,
                     root': seq<nat>, now: nat, status: int, n: nat, v: nat)
    requires N > 0 && Sound(N, disk, root, used) && Settled(N, disk, root, used, was, disk', now, status, n, v)
    requires |root'| == 15 && root' == root[14 := root'[14]] && (root[14] != 0 ==> root'[14] == root[14])
    ensures AsBefore(N, disk, root, disk', root', Landing(N, disk, root, n))
  {
    hide Stored, Landing, Needed, Stray, Val, Clear;
    var at := Landing(N, disk, root, n);
    forall q | IsSlot(N, q) && Clear(disk, root, q, at) && (q[0] != 14 || root[14] != 0)
      ensures Val(disk', root', q) == Val(disk, root, q)
    {
      if status == 0 {
        LookupBefore(N, disk, root, used, disk', root', at, Last(PathOf(N, n)), v, q);
      } else {
        ClearNone(disk, root, q);
        LookupBefore(N, disk, root, used, disk', root', -1, Last(PathOf(N, n)), v, q);
      }
    }
  }

  lemma ClearNone(disk: seq<seq<byte>>, root: seq<nat>, q: seq<nat>)
    ensures Clear(disk, root, q, -1)
  {
  }

  /** Every block in use that the inode does not point to, but for `v`, is still such a block. */
  ghost predicate StillFree(N: nat, disk: seq<seq<byte>>, root: seq<nat>, used: iset<nat>,
                            disk': seq<seq<byte>>, root': seq<nat>, used': iset<nat>, v: nat) {
    forall b :: b != v && Linkable(N, disk, root, used, b) ==> Linkable(N, disk', root', used', b)
  }

  lemma KeptLinkable(N: nat, disk: seq<seq<byte>>, root: seq<nat>, used: iset<nat>,
                     disk': seq<seq<byte>>, root': seq<nat>, used': iset<nat>, v: nat)
    requires StillFree(N, disk, root, used, disk', root', used', 0) && |disk'| == |disk|
    requires Linkable(N, disk, root, used, v)
    ensures Linkable(N, disk', root', used', v) && v < |disk'|
    ensures StillFree(N, disk, root, used, disk', root', used', v)
  {
  }

  lemma StillFreeAfter(N: nat, disk: seq<seq<byte>>, root: seq<nat>, used: iset<nat>,
                       mid: seq<seq<byte>>, root': seq<nat>, used': iset<nat>,
                       disk': seq<seq<byte>>, used'': iset<nat>, leaf: seq<nat>, v: nat)
    requires StillFree(N, disk, root, used, mid, root', used', 0) && |mid| == |disk|
    requires used' <= used'' && |disk'| == |mid|
    requires SameVals(N, mid, root', disk', root') || SlotSet(N, mid, root', disk', root', leaf, v)
    ensures StillFree(N, disk, root, used, disk', root', used'', v)
    ensures SameVals(N, mid, root', disk', root') ==> StillFree(N, disk, root, used, disk', root', used'', 0)
  {
  }

  lemma ComposeLeaves(N: nat, disk: seq<seq<byte>>, root: seq<nat>, mid: seq<seq<byte>>, root': seq<nat>,
                      disk': seq<seq<byte>>, root'': seq<nat>, leaf: seq<nat>, v: nat)
    requires SameLeaves(N, disk, root, mid, root') && DataKept(N, disk, root, mid) && DataKept(N, mid, root', disk')
    requires InnerKept(N, disk, root, mid, root') && IsLeaf(N, leaf)
    ensures DataKept(N, disk, root, disk')
    ensures SameVals(N, mid, root', disk', root'') ==>
      SameLeaves(N, disk, root, disk', root'') && InnerKept(N, disk, root, disk', root'')
    ensures SlotSet(N, mid, root', disk', root'', leaf, v) ==>
      LeafSet(N, disk, root, disk', root'', leaf, v) && InnerKept(N, disk, root, disk', root'')
  {
  }

  lemma SinglyShape(N: nat, n: nat)
    requires 12 <= n < 12 + N
    ensures PathOf(N, n) == [12, n - 12] && IsLeaf(N, [12, n - 12])
    ensures Parent([12, n - 12]) == [12] && Last([12, n - 12]) == n - 12
  {
  }

  lemma DoublyShape(N: nat, disk: seq<seq<byte>>, root: seq<nat>, n: nat, i: nat, j: nat)
    requires N > 0 && PathOf(N, n) == [13] + [i] + [j] && i < N && j < N
    ensures IsInner(N, [13] + [i]) && IsLeaf(N, [13] + [i] + [j])
    ensures Parent(PathOf(N, n)) == [13] + [i] && [13] + [i] != [13]
  {
  }

  lemma RootVal(disk: seq<seq<byte>>, root: seq<nat>, slot: nat)
    requires slot < |root|
    ensures Val(disk, root, [slot]) == root[slot]
  {
  }

  lemma TriplyShape(N: nat, n: nat, off: nat, i: nat, j: nat)
    requires N > 0 && PathOf(N, n) == [14, off] + [i] + [j] && off < N && i < N && j < N
    ensures IsInner(N, [14, off]) && IsInner(N, [14, off] + [i]) && IsLeaf(N, [14, off] + [i] + [j])
    ensures Parent(PathOf(N, n)) == [14, off] + [i]
    ensures PathOf(N, n)[..2] == [14, off] && PathOf(N, n)[2] == i && [14, off] != [14] && [14, off] + [i] != [14]
    ensures PathOf(N, n) == [14, off, i, j] && Last(PathOf(N, n)) == j
  {
  }

  lemma TriplyCost(N: nat, disk: seq<seq<byte>>, root: seq<nat>, n: nat, off: nat, i: nat, j: nat)
    requires N > 0 && |root| == 15 && PathOf(N, n) == [14, off, i, j]
    ensures Needed(N, disk, root, n) == One(root[14]) + NeededBelow(disk, root, [14, off, i, j])
    ensures Landing(N, disk, root, n) ==
      if Val(disk, root, [14, off]) == 0 then Void(disk, i) else Val(disk, root, [14, off] + [i])
    ensures Stray(N, disk, root, n) <==> Val(disk, root, [14, off]) == 0 && Void(disk, i) != 0
    ensures InnerPresent(N, disk, root, n) <==> Val(disk, root, [14, off] + [i]) != 0
  {
    assert PathOf(N, n)[..1] == [14] && PathOf(N, n)[..2] == [14, off] && Parent(PathOf(N, n)) == [14, off] + [i];
    RootVal(disk, root, 14);
  }

  /** Hanging in the triply indirect block changes nothing of what is needed below it. */
  lemma BelowKept(N: nat, disk: seq<seq<byte>>, root: seq<nat>, disk': seq<seq<byte>>, root': seq<nat>, off: nat,
                  i: nat, j: nat)
    requires IsSlot(N, [14, off]) && IsSlot(N, [14, off] + [i]) && Void(disk', i) == Void(disk, i)
    requires forall q :: IsSlot(N, q) && q != [14] ==> Val(disk', root', q) == Val(disk, root, q)
    ensures Val(disk', root', [14, off]) == Val(disk, root, [14, off])
    ensures Val(disk', root', [14, off] + [i]) == Val(disk, root, [14, off] + [i])
    ensures NeededBelow(disk', root', [14, off, i, j]) == NeededBelow(disk, root, [14, off, i, j])
  {
    assert [14, off, i, j][..2] == [14, off] && [14, off, i, j][..3] == [14, off] + [i];
  }

  /** The triply indirect block number arithmetic. */
  method ReduceTriply(N: nat, n: nat) returns (off: nat, blockId: nat, ghost i: nat, ghost j: nat)
    requires N > 0 && 12 + N + N * N <= n < Blocks(N)
    ensures off < N && i < N && j < N && PathOf(N, n) == [14, off] + [i] + [j] && blockId == 12 + N + (N * i + j)
  {
    hide PathOf, Blocks, Quotient, Rest;
    ghost var k;
    k, i, j := TriplyPath(N, n);
    off, blockId := TopReduced(N, N * N, n, k, N * i + j);
  }

  method TopReduced(N: nat, S: nat, n: nat, ghost k: nat, ghost r: nat) returns (off: nat, blockId: nat)
    requires r < S && n == 12 + N + S + Mul(S, k) + r
    ensures off == k && blockId == 12 + N + r
  {
    DivUnique(S, k, r);
    off := (n - (12 + N + S)) / S;
    assert off * S == Mul(S, k);
    blockId := n - (off * S + S);
  }

  lemma TopAt(N: nat, disk: seq<seq<byte>>, root: seq<nat>, used: iset<nat>, off: nat)
    requires Sound(N, disk, root, used) && off < N && root[14] != 0
    ensures root[14] < |disk| && Val(disk, root, [14, off]) == Word(disk[root[14]], off)
    ensures Val(disk, root, [14, off]) < |disk|
  {
  }

  lemma TopMissing(N: nat, disk: seq<seq<byte>>, root: seq<nat>, off: nat, i: nat)
    ensures Val(disk, root, [14, off]) == 0 ==> Val(disk, root, [14, off] + [i]) == 0
  {
  }

  lemma PresentFirm(N: nat, disk: seq<seq<byte>>, root: seq<nat>, n: nat)
    requires N > 0 && n < Blocks(N) && InnerPresent(N, disk, root, n)
    ensures Firm(N, disk, root, n)
  {
    if n >= 12 + N + Mul(N, N) {
      var k, i, j := TriplyPath(N, n);
      assert PathOf(N, n) == [14, k, i, j];
      assert Parent(Parent(PathOf(N, n))) == PathOf(N, n)[..2];
    }
  }

  lemma SamePresent(N: nat, disk: seq<seq<byte>>, root: seq<nat>, disk': seq<seq<byte>>, root': seq<nat>, n: nat)
    requires N > 0 && n < Blocks(N) && SlotsKept(N, disk, root, disk', root')
    ensures InnerPresent(N, disk', root', n) <==> InnerPresent(N, disk, root, n)
  {
    if n >= 12 + N {
      PathOfIsLeaf(N, n);
      ParentIsInner(N, PathOf(N, n));
    }
  }

  /** The walk to file block `n` does not break off at the first of three pointer blocks. */
  predicate Firm(N: nat, disk: seq<seq<byte>>, root: seq<nat>, n: nat)
    requires N > 0
  {
    n < 12 + N + Mul(N, N) || Val(disk, root, PathOf(N, n)[..2]) != 0
  }

  lemma FirmNotStray(N: nat, disk: seq<seq<byte>>, root: seq<nat>, n: nat)
    requires N > 0 && n < Blocks(N) && Firm(N, disk, root, n)
    ensures !Stray(N, disk, root, n)
  {
  }

  lemma StillFirm(N: nat, disk: seq<seq<byte>>, root: seq<nat>, disk': seq<seq<byte>>, root': seq<nat>, n: nat)
    requires N > 0 && n < Blocks(N) && Firm(N, disk, root, n) && SlotsKept(N, disk, root, disk', root')
    ensures Firm(N, disk', root', n)
  {
    if n >= 12 + N + Mul(N, N) {
      PathOfIsLeaf(N, n);
      assert IsSlot(N, PathOf(N, n)[..2]);
    }
  }

  /** Behind a missing pointer block there is a hole. */
  lemma MissingHole(N: nat, disk: seq<seq<byte>>, root: seq<nat>, n: nat)
    requires N > 0 && n < Blocks(N) && !InnerPresent(N, disk, root, n)
    ensures Val(disk, root, PathOf(N, n)) == 0 && IsLeaf(N, PathOf(N, n))
  {
    PathOfIsLeaf(N, n);
  }

  lemma SameValsKeep(N: nat, disk: seq<seq<byte>>, root: seq<nat>, disk': seq<seq<byte>>, root': seq<nat>)
    requires SameVals(N, disk, root, disk', root')
    ensures SameLeaves(N, disk, root, disk', root') && SlotsKept(N, disk, root, disk', root')
  {
  }

  lemma KeptTwice(N: nat, disk: seq<seq<byte>>, root: seq<nat>, mid: seq<seq<byte>>, root': seq<nat>,
                  disk': seq<seq<byte>>, root'': seq<nat>)
    requires SlotsKept(N, disk, root, mid, root') && SlotsKept(N, mid, root', disk', root'')
    ensures SlotsKept(N, disk, root, disk', root'')
  {
  }

  /** Setting the data pointer of a hole keeps every pointer that is set. */
  lemma HoleFilled(N: nat, disk: seq<seq<byte>>, root: seq<nat>, disk': seq<seq<byte>>, root': seq<nat>, leaf: seq<nat>,
                   v: nat)
    requires IsLeaf(N, leaf) && Val(disk, root, leaf) == 0 && InnerKept(N, disk, root, disk', root')
    requires LeafSet(N, disk, root, disk', root', leaf, v) || SameLeaves(N, disk, root, disk', root')
    ensures SlotsKept(N, disk, root, disk', root')
  {
    forall q | IsSlot(N, q) && Val(disk, root, q) != 0
      ensures Val(disk', root', q) == Val(disk, root, q)
    {
      assert IsLeaf(N, q) || IsInner(N, q);
    }
  }

  lemma KeptHole(N: nat, disk: seq<seq<byte>>, root: seq<nat>, disk': seq<seq<byte>>, root': seq<nat>,
                 at: nat, len: nat, o: nat)
    requires N > 0 && Writable(N, disk, root, at, len) && at <= o < at + len && SlotsKept(N, disk, root, disk', root')
    ensures Val(disk', root', PathOf(N, FileBlock(N, o))) == 0 ==> Val(disk, root, PathOf(N, FileBlock(N, o))) == 0
  {
    assert InFile(N, o);
    PathOfIsLeaf(N, FileBlock(N, o));
  }

  // ---------- blocks of other files ----------

  /**
   Every block in use that the inode does not point to, but for `v`, keeps its
   bytes, and the inode still does not point to it.
   */
  ghost predicate Elsewhere(N: nat, disk: seq<seq<byte>>, root: seq<nat>, used: iset<nat>,
                            disk': seq<seq<byte>>, root': seq<nat>, used': iset<nat>, v: nat) {
    forall b: nat :: b != 0 && b != v && Linkable(N, disk, root, used, b) ==>
      Linkable(N, disk', root', used', b) && disk'[b] == disk[b]
  }

  lemma ElsewhereTwice(N: nat, disk: seq<seq<byte>>, root: seq<nat>, used: iset<nat>,
                       mid: seq<seq<byte>>, root': seq<nat>, used': iset<nat>,
                       disk': seq<seq<byte>>, root'': seq<nat>, used'': iset<nat>, v: nat)
    requires Elsewhere(N, disk, root, used, mid, root', used', 0)
    requires Elsewhere(N, mid, root', used', disk', root'', used'', v) && (v == 0 || v !in used)
    ensures Elsewhere(N, disk, root, used, disk', root'', used'', 0)
  {
  }

  /** A block the inode points to, or one that was free, can be written without touching other files. */
  lemma WrittenElsewhere(N: nat, disk: seq<seq<byte>>, root: seq<nat>, used: iset<nat>, used': iset<nat>, x: nat,
                         data: seq<byte>)
    requires x < |disk| && (x !in used || exists q :: IsSlot(N, q) && Val(disk, root, q) == x) && used <= used'
    requires SameVals(N, disk, root, disk[x := data], root)
    ensures Elsewhere(N, disk, root, used, disk[x := data], root, used', 0)
  {
  }

  /** A block in use that the inode does not point to can be written without changing the file. */
  lemma LooseWritten(N: nat, disk: seq<seq<byte>>, root: seq<nat>, used: iset<nat>, x: nat, data: seq<byte>)
    requires N > 0 && Sound(N, disk, root, used) && x != 0 && Linkable(N, disk, root, used, x) && |data| == 4 * N
    ensures SameVals(N, disk, root, disk[x := data], root) && Sound(N, disk[x := data], root, used)
    ensures SameBytes(N, disk, root, disk[x := data], root)
    ensures Elsewhere(N, disk, root, used, disk[x := data], root, used, x)
  {
    forall q | IsSlot(N, q)
      ensures Val(disk[x := data], root, q) == Val(disk, root, q)
    {
      ValFrame(N, disk, root, x, data, q);
    }
    SameValsKeep(N, disk, root, disk[x := data], root);
    BytesKept(N, disk, root, disk[x := data], root);
  }

  /** ext2_set_block_id writes to no block of another file but block 0, unless the walk breaks off at the very top. */
  lemma SettledElsewhere(N: nat, disk: seq<seq<byte>>, root: seq<nat>, used: iset<nat>, was: nat,
                         disk': seq<seq<byte>>, root': seq<nat>, used': iset<nat>, now: nat,
                         status: int, n: nat, v: nat)
    requires N > 0 && n < Blocks(N) && Firm(N, disk, root, n)
    requires Settled(N, disk, root, used, was, disk', now, status, n, v)
    requires StillFree(N, disk, root, used, disk', root', used', v)
    ensures Elsewhere(N, disk, root, used, disk', root', used', v)
  {
    PathOfIsLeaf(N, n);
    var path := PathOf(N, n);
    if |path| > 1 {
      ParentIsInner(N, path);
      assert path[..1] == [path[0]] && IsSlot(N, path[..1]);
    }
  }

  // ---------- the bytes of the file ----------

  /** The bytes of file block `n`; a hole is a block of zeros. */
  ghost function BlockBytes(N: nat, disk: seq<seq<byte>>, root: seq<nat>, n: nat): (r: seq<byte>)
    requires N > 0
    ensures |r| == 4 * N
  {
    var p := Val(disk, root, PathOf(N, n));
    if 0 < p < |disk| && |disk[p]| == 4 * N then disk[p] else Zeros(4 * N)
  }

  /** The file block a byte lies in, and where in the block. */
  function FileBlock(N: nat, o: nat): nat
    requires N > 0
  {
    Quotient(o, 4 * N)
  }

  function InBlock(N: nat, o: nat): (r: nat)
    requires N > 0
    ensures r < 4 * N
  {
    Rest(o, 4 * N)
  }

  ghost function FileByte(N: nat, disk: seq<seq<byte>>, root: seq<nat>, o: nat): byte
    requires N > 0
  {
    BlockBytes(N, disk, root, FileBlock(N, o))[InBlock(N, o)]
  }

  /** All file blocks but `n` keep their bytes, and block `n` holds `bytes`. */
  ghost predicate BlockSet(N: nat, disk: seq<seq<byte>>, root: seq<nat>, disk': seq<seq<byte>>, root': seq<nat>, n: nat,
                           bytes: seq<byte>)
    requires N > 0
  {
    forall m :: 0 <= m < Blocks(N) ==>
      BlockBytes(N, disk', root', m) == if m == n then bytes else BlockBytes(N, disk, root, m)
  }

  ghost predicate SameBytes(N: nat, disk: seq<seq<byte>>, root: seq<nat>, disk': seq<seq<byte>>, root': seq<nat>)
    requires N > 0
  {
    forall m :: 0 <= m < Blocks(N) ==> BlockBytes(N, disk', root', m) == BlockBytes(N, disk, root, m)
  }

  lemma BytesKept(N: nat, disk: seq<seq<byte>>, root: seq<nat>, disk': seq<seq<byte>>, root': seq<nat>)
    requires N > 0 && SameLeaves(N, disk, root, disk', root') && DataKept(N, disk, root, disk')
    ensures SameBytes(N, disk, root, disk', root')
  {
    forall m | 0 <= m < Blocks(N)
      ensures BlockBytes(N, disk', root', m) == BlockBytes(N, disk, root, m)
    {
      PathOfIsLeaf(N, m);
    }
  }

  /** Linking a zeroed block where there was a hole does not change the file. */
  lemma BytesLinked(N: nat, disk: seq<seq<byte>>, root: seq<nat>, disk': seq<seq<byte>>, root': seq<nat>, n: nat,
                    v: nat)
    requires N > 0 && n < Blocks(N) && 0 < v < |disk'| && disk'[v] == Zeros(4 * N)
    requires Val(disk, root, PathOf(N, n)) == 0
    requires LeafSet(N, disk, root, disk', root', PathOf(N, n), v) && DataKept(N, disk, root, disk')
    ensures SameBytes(N, disk, root, disk', root')
  {
    forall m | 0 <= m < Blocks(N)
      ensures BlockBytes(N, disk', root', m) == BlockBytes(N, disk, root, m)
    {
      PathOfIsLeaf(N, m);
      PathOfIsLeaf(N, n);
    }
  }

  /** Writing into the data block of file block `n` changes that file block only. */
  lemma BytesWritten(N: nat, disk: seq<seq<byte>>, root: seq<nat>, used: iset<nat>, n: nat, data: seq<byte>)
    requires N > 0 && n < Blocks(N) && Sound(N, disk, root, used) && |data| == 4 * N
    requires Val(disk, root, PathOf(N, n)) != 0
    ensures var b := Val(disk, root, PathOf(N, n));
            b < |disk| && BlockSet(N, disk, root, disk[b := data], root, n, data)
            && Sound(N, disk[b := data], root, used) && SameVals(N, disk, root, disk[b := data], root)
  {
    PathOfIsLeaf(N, n);
    var b := Val(disk, root, PathOf(N, n));
    var disk' := disk[b := data];
    forall q | IsSlot(N, q)
      ensures Val(disk', root, q) == Val(disk, root, q)
    {
      ValFrame(N, disk, root, b, data, q);
    }
    forall m | 0 <= m < Blocks(N)
      ensures BlockBytes(N, disk', root, m) == if m == n then data else BlockBytes(N, disk, root, m)
    {
      PathOfIsLeaf(N, m);
    }
  }

  lemma BlockSetAfterSame(N: nat, disk: seq<seq<byte>>, root: seq<nat>, mid: seq<seq<byte>>, root': seq<nat>,
                          disk': seq<seq<byte>>, n: nat, bytes: seq<byte>)
    requires N > 0 && SameBytes(N, disk, root, mid, root') && BlockSet(N, mid, root', disk', root', n, bytes)
    ensures BlockSet(N, disk, root, disk', root', n, bytes)
  {
  }

  lemma SameTwice(N: nat, disk: seq<seq<byte>>, root: seq<nat>, mid: seq<seq<byte>>, root': seq<nat>,
                  disk': seq<seq<byte>>, root'': seq<nat>)
    requires N > 0 && SameBytes(N, disk, root, mid, root') && SameBytes(N, mid, root', disk', root'')
    ensures SameBytes(N, disk, root, disk', root'')
  {
  }

  lemma SameStart(N: nat, disk: seq<seq<byte>>, root: seq<nat>, used: iset<nat>)
    requires N > 0
    ensures Elsewhere(N, disk, root, used, disk, root, used, 0)
    ensures SameBytes(N, disk, root, disk, root) && SlotsKept(N, disk, root, disk, root)
  {
  }

  /** The file offset of byte `inBlock` of file block `n`. */
  function At(N: nat, n: nat, inBlock: nat): nat {
    4 * N * n + inBlock
  }

  /** The addressable bytes. */
  predicate InFile(N: nat, o: nat) {
    N > 0 && FileBlock(N, o) < Blocks(N)
  }

  /**
   The file after `d` has been written at byte `at`: those bytes changed, no others.
   Bytes whose inner pointer block is missing do not change either.
   */
  ghost predicate Wrote(N: nat, disk: seq<seq<byte>>, root: seq<nat>, disk': seq<seq<byte>>, root': seq<nat>, at: nat,
                        d: seq<byte>)
  {
    forall o: nat :: InFile(N, o) ==>
      FileByte(N, disk', root', o) ==
      if at <= o < at + |d| && InnerPresent(N, disk, root, FileBlock(N, o)) then d[o - at]
      else FileByte(N, disk, root, o)
  }

  /** The first `size` bytes of the file; a hole is zeros. */
  ghost function Contents(N: nat, disk: seq<seq<byte>>, root: seq<nat>, size: nat): (r: seq<byte>)
    requires N > 0
    ensures |r| == size && forall o :: 0 <= o < size ==> r[o] == FileByte(N, disk, root, o)
  {
    seq(size, o requires 0 <= o < size => FileByte(N, disk, root, o))
  }

  /** The bytes whose inner pointer block exists. */
  ghost function Present(N: nat, disk: seq<seq<byte>>, root: seq<nat>): iset<nat> {
    iset o: nat | InFile(N, o) && InnerPresent(N, disk, root, FileBlock(N, o))
  }

  lemma PresentKept(N: nat, disk: seq<seq<byte>>, root: seq<nat>, disk': seq<seq<byte>>, root': seq<nat>)
    requires SlotsKept(N, disk, root, disk', root')
    ensures Present(N, disk', root') == Present(N, disk, root)
  {
    hide SlotsKept, InnerPresent, FileBlock, Blocks;
    forall o: nat | InFile(N, o)
      ensures o in Present(N, disk', root') <==> o in Present(N, disk, root)
    {
      SamePresent(N, disk, root, disk', root', FileBlock(N, o));
    }
  }

  /** A memcpy of which only the bytes at `present` arrive. */
  ghost function Patched(s: seq<byte>, at: nat, d: seq<byte>, present: iset<nat>): (r: seq<byte>)
    ensures |r| == |s|
  {
    seq(|s|, o requires 0 <= o < |s| => if at <= o < at + |d| && o in present then d[o - at] else s[o])
  }

  lemma PatchedAll(s: seq<byte>, at: nat, d: seq<byte>, present: iset<nat>)
    requires at + |d| <= |s| && forall o :: at <= o < at + |d| ==> o in present
    ensures Patched(s, at, d, present) == Overlay(s, at, d)
  {
    hide Overlay;
    forall o | 0 <= o < |s|
      ensures Patched(s, at, d, present)[o] == Overlay(s, at, d)[o]
    {
      OverlayAt(s, at, d, o);
    }
  }

  lemma PatchedNone(s: seq<byte>, at: nat, d: seq<byte>, present: iset<nat>)
    requires forall o :: at <= o < at + |d| ==> o !in present
    ensures Patched(s, at, d, present) == s
  {
  }

  lemma WroteContents(N: nat, disk: seq<seq<byte>>, root: seq<nat>, disk': seq<seq<byte>>, root': seq<nat>,
                      at: nat, d: seq<byte>, size: nat)
    requires N > 0 && Wrote(N, disk, root, disk', root', at, d) && forall o :: 0 <= o < size ==> InFile(N, o)
    ensures Contents(N, disk', root', size) == Patched(Contents(N, disk, root, size), at, d, Present(N, disk, root))
  {
    hide FileByte, InFile, InnerPresent, FileBlock;
    forall o | 0 <= o < size
      ensures Contents(N, disk', root', size)[o]
           == Patched(Contents(N, disk, root, size), at, d, Present(N, disk, root))[o]
    {
      assert InFile(N, o);
    }
  }

  lemma ChunkBounds(S: nat, n: nat, o: nat)
    requires S > 0
    ensures S * n <= o < S * n + S <==> Quotient(o, S) == n
    ensures Quotient(o, S) == n ==> o == S * n + Rest(o, S)
  {
    assert o == S * (o / S) + o % S;
    if S * n <= o < S * n + S {
      DivUnique(S, n, o - S * n);
    }
  }

  lemma ChunkByte(N: nat, n: nat, inBlock: nat, len: nat, o: nat)
    requires N > 0 && inBlock + len <= 4 * N
    ensures At(N, n, inBlock) <= o < At(N, n, inBlock) + len <==>
      FileBlock(N, o) == n && inBlock <= InBlock(N, o) < inBlock + len
    ensures FileBlock(N, o) == n ==> o - At(N, n, inBlock) == InBlock(N, o) - inBlock
  {
    hide Quotient, Rest;
    ChunkBounds(4 * N, n, o);
  }

  /** A memcpy into one file block, seen from the whole file. */
  lemma ChunkWrote(N: nat, disk: seq<seq<byte>>, root: seq<nat>, disk': seq<seq<byte>>, root': seq<nat>, n: nat,
                   inBlock: nat, d: seq<byte>)
    requires N > 0 && n < Blocks(N) && inBlock + |d| <= 4 * N && InnerPresent(N, disk, root, n)
    requires BlockSet(N, disk, root, disk', root', n, Overlay(BlockBytes(N, disk, root, n), inBlock, d))
    ensures Wrote(N, disk, root, disk', root', At(N, n, inBlock), d)
  {
    hide Overlay, Blocks, At, FileBlock, InBlock, InnerPresent;
    var at := At(N, n, inBlock);
    forall o: nat | InFile(N, o)
      ensures FileByte(N, disk', root', o) ==
        if at <= o < at + |d| && InnerPresent(N, disk, root, FileBlock(N, o)) then d[o - at]
        else FileByte(N, disk, root, o)
    {
      ChunkByte(N, n, inBlock, |d|, o);
      OverlayAt(BlockBytes(N, disk, root, n), inBlock, d, InBlock(N, o));
    }
  }

  /** A memcpy that goes elsewhere because the pointer could not be set. */
  lemma ChunkLost(N: nat, disk: seq<seq<byte>>, root: seq<nat>, disk': seq<seq<byte>>, root': seq<nat>, n: nat,
                  inBlock: nat, d: seq<byte>)
    requires N > 0 && n < Blocks(N) && inBlock + |d| <= 4 * N && !InnerPresent(N, disk, root, n)
    requires SameBytes(N, disk, root, disk', root')
    ensures Wrote(N, disk, root, disk', root', At(N, n, inBlock), d)
  {
    hide Overlay, Blocks, At, FileBlock, InBlock, InnerPresent, BlockBytes;
    var at := At(N, n, inBlock);
    forall o: nat | InFile(N, o)
      ensures FileByte(N, disk', root', o) ==
        if at <= o < at + |d| && InnerPresent(N, disk, root, FileBlock(N, o)) then d[o - at]
        else FileByte(N, disk, root, o)
    {
      ChunkByte(N, n, inBlock, |d|, o);
    }
  }

  lemma WroteMore(N: nat, disk: seq<seq<byte>>, root: seq<nat>, mid: seq<seq<byte>>, root': seq<nat>,
                  disk': seq<seq<byte>>, root'': seq<nat>, at: nat, buffer: seq<byte>, i: nat, j: nat)
    requires i <= j <= |buffer| && SlotsKept(N, disk, root, mid, root')
    requires Wrote(N, disk, root, mid, root', at, buffer[..i])
    requires Wrote(N, mid, root', disk', root'', at + i, buffer[i..j])
    ensures Wrote(N, disk, root, disk', root'', at, buffer[..j])
  {
    hide FileByte, FileBlock, InnerPresent, Blocks, SlotsKept;
    forall o: nat | InFile(N, o)
      ensures FileByte(N, disk', root'', o) ==
        if at <= o < at + j && InnerPresent(N, disk, root, FileBlock(N, o)) then buffer[o - at]
        else FileByte(N, disk, root, o)
    {
      SamePresent(N, disk, root, mid, root', FileBlock(N, o));
    }
  }

  lemma WroteNothing(N: nat, disk: seq<seq<byte>>, root: seq<nat>, disk': seq<seq<byte>>, root': seq<nat>, at: nat)
    requires N > 0 && SameBytes(N, disk, root, disk', root')
    ensures Wrote(N, disk, root, disk', root', at, [])
  {
  }

  lemma SameBytesAt(N: nat, disk: seq<seq<byte>>, root: seq<nat>, disk': seq<seq<byte>>, root': seq<nat>, n: nat)
    requires N > 0 && n < Blocks(N) && SameBytes(N, disk, root, disk', root')
    ensures BlockBytes(N, disk', root', n) == BlockBytes(N, disk, root, n)
  {
  }

  lemma AtInverse(N: nat, o: nat)
    requires N > 0
    ensures At(N, FileBlock(N, o), InBlock(N, o)) == o
  {
  }

  /** Bytes before the end of a file block are in the same block. */
  lemma SameBlock(N: nat, o: nat, i: nat)
    requires N > 0 && InBlock(N, o) + i < 4 * N
    ensures FileBlock(N, o + i) == FileBlock(N, o) && InBlock(N, o + i) == InBlock(N, o) + i
  {
    hide Quotient, Rest;
    QuotientStep(o, 4 * N, i);
  }

  lemma BlockPointer(N: nat, disk: seq<seq<byte>>, root: seq<nat>, used: iset<nat>, n: nat)
    requires N > 0 && Sound(N, disk, root, used) && IsLeaf(N, PathOf(N, n))
    ensures var p := Val(disk, root, PathOf(N, n));
            if p == 0 then BlockBytes(N, disk, root, n) == Zeros(4 * N)
            else p < |disk| && BlockBytes(N, disk, root, n) == disk[p]
  {
  }

  /** A range of the file in which no walk breaks off at the very top. */
  ghost predicate Writable(N: nat, disk: seq<seq<byte>>, root: seq<nat>, at: nat, len: nat) {
    forall o :: at <= o < at + len ==> InFile(N, o) && Firm(N, disk, root, FileBlock(N, o))
  }

  lemma StillWritable(N: nat, disk: seq<seq<byte>>, root: seq<nat>, disk': seq<seq<byte>>, root': seq<nat>,
                      at: nat, len: nat)
    requires Writable(N, disk, root, at, len) && SlotsKept(N, disk, root, disk', root')
    ensures Writable(N, disk', root', at, len)
  {
    forall o | at <= o < at + len
      ensures InFile(N, o) && Firm(N, disk', root', FileBlock(N, o))
    {
      assert InFile(N, o);
      StillFirm(N, disk, root, disk', root', FileBlock(N, o));
    }
  }

  /** Every byte of the range lies in a data block. */
  ghost predicate NoHoles(N: nat, disk: seq<seq<byte>>, root: seq<nat>, at: nat, len: nat) {
    forall o :: at <= o < at + len ==> InFile(N, o) && Val(disk, root, PathOf(N, FileBlock(N, o))) != 0
  }

  lemma NoHoleAt(N: nat, disk: seq<seq<byte>>, root: seq<nat>, disk': seq<seq<byte>>, root': seq<nat>,
                 at: nat, len: nat, o: nat)
    requires NoHoles(N, disk, root, at, len) && at <= o < at + len && SlotsKept(N, disk, root, disk', root')
    ensures N > 0 && Val(disk, root, PathOf(N, FileBlock(N, o))) != 0
    ensures Val(disk', root', PathOf(N, FileBlock(N, o))) != 0
  {
    assert InFile(N, o);
    PathOfIsLeaf(N, FileBlock(N, o));
  }

  /** The blocks a write to file block `n` takes. */
  ghost function Cost(N: nat, disk: seq<seq<byte>>, root: seq<nat>, n: nat): nat
    requires N > 0
  {
    if Val(disk, root, PathOf(N, n)) != 0 then 0 else 1 + Needed(N, disk, root, n)
  }

  lemma SameNeeded(N: nat, disk: seq<seq<byte>>, root: seq<nat>, used: iset<nat>, disk': seq<seq<byte>>, n: nat)
    requires N > 0 && n < Blocks(N) && SameVals(N, disk, root, disk', root) && Stored(disk, used, disk', -1, 0, 0)
    ensures Needed(N, disk', root, n) == Needed(N, disk, root, n)
  {
    PathOfIsLeaf(N, n);
    var path := PathOf(N, n);
    forall k | 1 <= k < |path|
      ensures IsSlot(N, path[..k])
    {
    }
    if |path| == 4 {
      VoidKept(disk, used, disk', path[2]);
    }
  }

  /** A fresh zeroed block in an empty indirect slot. */
  lemma Hung(N: nat, disk': seq<seq<byte>>, disk: seq<seq<byte>>, root: seq<nat>, used: iset<nat>, used': iset<nat>,
             slot: nat, b: nat)
    requires Sound(N, disk, root, used) && 12 <= slot < 15 && root[slot] == 0 && 0 < b < |disk| && b !in used
    requires disk' == disk[b := Zeros(4 * N)] && used' == used + iset{b}
    ensures Sound(N, disk', root[slot := b], used')
    ensures SlotSet(N, disk, root, disk', root[slot := b], [slot], b)
    ensures SameLeaves(N, disk, root, disk', root[slot := b]) && DataKept(N, disk, root, disk')
    ensures InnerKept(N, disk, root, disk', root[slot := b])
    ensures StillFree(N, disk, root, used, disk', root[slot := b], used', 0)
  {
    forall q | IsSlot(N, q)
      ensures Val(disk', root[slot := b], q) == if q == [slot] then b else Val(disk, root, q)
    {
      ValHang(N, disk, root, slot, b, q);
    }
    RootVal(disk, root, slot);
    assert IsSlot(N, [slot]);
    SoundUpdate(N, disk, root, used, disk', root[slot := b], used', [slot], b);
  }

  /** A search for a free block, from 0 or from a block in use, that finds none. */
  ghost predicate Missed(s: Bitmap.Shape, groups: seq<Bitmap.Group>, superFree: nat) {
    && s.perGroup > 0 && Bitmap.Consistent(s, groups, superFree)
    && exists start: nat :: start < s.count && (start == 0 || (s.first <= start && Bitmap.InUse(s, groups, start)))
                            && Bitmap.Search(s, groups, superFree, start).Miss?
  }

  lemma LinkableRange(N: nat, disk: seq<seq<byte>>, root: seq<nat>, used: iset<nat>, v: nat)
    requires Linkable(N, disk, root, used, v)
    ensures v < |disk|
  {
  }

  lemma LeafNow(N: nat, disk: seq<seq<byte>>, root: seq<nat>, disk': seq<seq<byte>>, root': seq<nat>, leaf: seq<nat>,
                v: nat)
    requires LeafSet(N, disk, root, disk', root', leaf, v) && IsLeaf(N, leaf)
    ensures Val(disk', root', leaf) == v
  {
  }

  /** The data block of file block `n`. */
  lemma BlockHere(N: nat, disk: seq<seq<byte>>, root: seq<nat>, used: iset<nat>, n: nat)
    requires N > 0 && n < Blocks(N) && Sound(N, disk, root, used) && Val(disk, root, PathOf(N, n)) != 0
    ensures var p := Val(disk, root, PathOf(N, n));
      p < |disk| && p in used && |disk[p]| == 4 * N && BlockBytes(N, disk, root, n) == disk[p]
  {
    PathOfIsLeaf(N, n);
  }

  /** Writing to it changes no block of another file. */
  lemma ReferencedElsewhere(N: nat, disk: seq<seq<byte>>, root: seq<nat>, used: iset<nat>, n: nat, data: seq<byte>)
    requires N > 0 && n < Blocks(N) && Sound(N, disk, root, used) && Val(disk, root, PathOf(N, n)) != 0
    requires |data| == 4 * N
    ensures var p := Val(disk, root, PathOf(N, n));
      p < |disk| && Elsewhere(N, disk, root, used, disk[p := data], root, used, 0)
  {
    PathOfIsLeaf(N, n);
    BytesWritten(N, disk, root, used, n, data);
    WrittenElsewhere(N, disk, root, used, used, Val(disk, root, PathOf(N, n)), data);
  }

  lemma NoneLeft(s: Bitmap.Shape, groups: seq<Bitmap.Group>, superFree: nat)
    requires s.perGroup > 0 && s.count > 0 && Bitmap.Consistent(s, groups, superFree)
    ensures superFree == 0 ==> Missed(s, groups, superFree)
  {
    Bitmap.SearchMisses(s, groups, superFree, 0);
  }

  class File {
    const N: nat
    const table: Bitmap.IdTable
    var disk: seq<seq<byte>>
    /** i_block. */
    var root: seq<nat>
    var size: nat

    /** The volume is well formed, whatever the inode points to. */
    ghost predicate Mounted()
      reads this, table
    {
      && N > 0 && table.s.perGroup > 0 && table.Valid() && |disk| == table.s.count <= 0x1_0000_0000
      && (table.s.first == 0 ==> Bitmap.InUse(table.s, table.groups, 0))
      && Blocked(N, disk, root)
    }

    ghost function InUse(): iset<nat>
      requires table.s.perGroup > 0
      reads table
    {
      Used(table.s, table.groups)
    }

    ghost predicate Valid()
      reads this, table
    {
      Mounted() && Sound(N, disk, root, InUse())
    }

    /** An inode without blocks on a mounted volume. */
    constructor (N: nat, table: Bitmap.IdTable, disk: seq<seq<byte>>)
      requires N > 0 && table.Valid() && |disk| == table.s.count <= 0x1_0000_0000
      requires table.s.first == 0 ==> Bitmap.InUse(table.s, table.groups, 0)
      requires forall b :: 0 <= b < |disk| ==> |disk[b]| == 4 * N
      ensures Valid() && this.N == N && this.table == table && this.disk == disk && size == 0
      ensures forall q :: IsSlot(N, q) ==> Val(disk, root, q) == 0
    {
      this.N, this.table, this.disk, this.size := N, table, disk, 0;
      root := seq(15, _ => 0);
      new;
      forall q | IsSlot(N, q)
        ensures Val(disk, root, q) == 0
      {
        EmptyInode(N, disk, root, q);
      }
    }

    /** ext2_read_block of one pointer. */
    method ReadWord(b: nat, i: nat) returns (v: nat)
      requires b < |disk| && 4 * i + 4 <= |disk[b]|
      ensures v == Word(disk[b], i)
    {
      v := Word(disk[b], i);
    }

    /** ext2_decode_block_id. */
    method DecodeBlockId(n: nat) returns (r: nat)
      requires Valid() && n < Blocks(N)
      ensures r == Val(disk, root, PathOf(N, n))
    {
      hide Used, Blocks, Sound, Quotient, Rest, Bitmap.InUse, Bitmap.Consistent;
      if n >= 12 + N + N * N {
        r := DecodeTriply(n);
      } else if n >= 12 + N {
        ghost var i, j := DoublyPath(N, n);
        DoublyShape(N, disk, root, n, i, j);
        RootVal(disk, root, 13);
        r := DecodeDoubly(root[13], n, [13], i, j);
      } else if n >= 12 {
        r := DecodeSingly(n);
      } else {
        r := root[n];
      }
    }

    method DecodeSingly(n: nat) returns (r: nat)
      requires Valid() && 12 <= n < 12 + N
      ensures r == Val(disk, root, PathOf(N, n))
    {
      assert Val(disk, root, [12]) == root[12] && IsSlot(N, [12]);
      assert Parent([12, n - 12]) == [12];
      if root[12] == 0 {
        return 0;
      }
      r := ReadWord(root[12], n - 12);
    }

    /**
     The doubly indirect step and the singly indirect one after it, with the block number as the
     source reduces it.
     */
    method DecodeDoubly(id: nat, blockId: nat, ghost prefix: seq<nat>, ghost i: nat, ghost j: nat) returns (r: nat)
      requires Valid() && i < N && j < N && blockId == 12 + N + (N * i + j)
      requires prefix != [] && IsInner(N, prefix + [i]) && IsLeaf(N, prefix + [i] + [j])
      requires id == Val(disk, root, prefix)
      ensures r == Val(disk, root, prefix + [i] + [j])
    {
      hide IsSlot, Used, Bitmap.InUse, Bitmap.Consistent, Word, Sound;
      PointerAt(N, disk, root, InUse(), prefix, i, j);
      var off, left := ReduceDoubly(N, blockId, i, j);
      if id == 0 {
        return 0;
      }
      var rd := ReadWord(id, off);
      if rd == 0 {
        return 0;
      }
      r := ReadWord(rd, left - 12);
    }

    method DecodeTriply(n: nat) returns (r: nat)
      requires Valid() && 12 + N + N * N <= n < Blocks(N)
      ensures r == Val(disk, root, PathOf(N, n))
    {
      hide PathOf, Blocks, Used, Bitmap.InUse, Bitmap.Consistent, Word, Sound, IsSlot;
      var off, blockId;
      ghost var i, j;
      off, blockId, i, j := ReduceTriply(N, n);
      TriplyShape(N, n, off, i, j);
      TopMissing(N, disk, root, off, i);
      var id := root[14];
      if id == 0 {
        TopPath(N, disk, root, off, PathOf(N, n));
        return 0;
      }
      TopAt(N, disk, root, InUse(), off);
      var rd := ReadWord(id, off);
      if rd == 0 {
        TopPath(N, disk, root, off, PathOf(N, n));
        return 0;
      }
      r := DecodeDoubly(rd, blockId, [14, off], i, j);
    }

    /** ext2_alloc_block: a block that was free, now in use and zeroed. */
    method AllocZeroed(start: nat) returns (r: Option<nat>)
      requires Mounted() && start < |disk| && (start == 0 || table.s.first <= start)
      modifies this`disk, table
      ensures Mounted() && |disk| == |old(disk)|
      ensures r.None? ==> disk == old(disk) && InUse() == old(InUse())
      ensures r.Some? ==> 0 < r.value < |disk| && r.value !in old(InUse()) && InUse() == old(InUse()) + iset{r.value}
      ensures r.Some? ==> disk == old(disk)[r.value := Zeros(4 * N)]
      ensures r.None? <==> Bitmap.Search(table.s, old(table.groups), old(table.superFree), start).Miss?
      ensures r.None? ==> table.groups == old(table.groups)
      ensures start == 0 ==> (r.None? <==> old(table.superFree) == 0)
      ensures table.superFree == if r.Some? then old(table.superFree) - 1 else old(table.superFree)
    {
      Bitmap.SearchMisses(table.s, table.groups, table.superFree, start);
      r := table.AllocBlock(start);
      if r.Some? {
        disk := disk[r.value := Zeros(4 * N)];
      }
    }

    /** ext2_allocate_indirect_block for an empty indirect slot of the inode. */
    method Hang(slot: nat) returns (status: int, id: nat)
      requires Valid() && 12 <= slot < 15
      modifies this`disk, this`root, table
      ensures Valid() && InUse() >= old(InUse())
      ensures SameLeaves(N, old(disk), old(root), disk, root) && DataKept(N, old(disk), old(root), disk)
      ensures InnerKept(N, old(disk), old(root), disk, root)
      ensures forall q :: IsSlot(N, q) && q != [slot] ==> Val(disk, root, q) == Val(old(disk), old(root), q)
      ensures StillFree(N, old(disk), old(root), old(InUse()), disk, root, InUse(), 0)
      ensures Stored(old(disk), old(InUse()), disk, -1, 0, 0) && |disk| == |old(disk)| > 0
      ensures Paid(old(table.superFree), table.superFree, status, One(old(root[slot])))
      ensures |root| == 15 && root == old(root)[slot := root[slot]]
      ensures status == 0 ==> id == root[slot] != 0 && id < |disk|
      ensures status == 0 && old(root[slot]) == 0 ==> id !in old(InUse())
      ensures status != 0 ==> disk == old(disk) && root == old(root)
      ensures old(root[slot]) != 0 ==> status == 0 && disk == old(disk) && root == old(root)
    {
      id := root[slot];
      status := 0;
      RootVal(disk, root, slot);
      assert IsSlot(N, [slot]);
      if id == 0 {
        var r := AllocZeroed(0);
        if r.None? {
          return ENOSPC, 0;
        }
        id := r.value;
        Hung(N, disk, old(disk), root, old(InUse()), InUse(), slot, id);
        root := root[slot := id];
      }
    }

    /**
     The step from one pointer block to the next. When the pointer is missing the
     source allocates a block but writes the old, zero pointer into the new block
     and goes on with that zero: the new block is never linked.
     */
    method InnerStep(id: nat, off: nat) returns (status: int, next: nat)
      requires Valid() && id < |disk| && off < N
      modifies this`disk, table
      ensures Valid() && InUse() >= old(InUse()) && |disk| == |old(disk)| > 0
      ensures SameVals(N, old(disk), root, disk, root) && DataKept(N, old(disk), root, disk)
      ensures Stored(old(disk), old(InUse()), disk, -1, 0, 0)
      ensures Paid(old(table.superFree), table.superFree, status, One(Word(old(disk)[id], off)))
      ensures status == 0 ==> next == Word(old(disk)[id], off)
    {
      next := ReadWord(id, off);
      status := 0;
      if next == 0 {
        var r := AllocZeroed(0);
        if r.None? {
          return ENOSPC, 0;
        }
        var x := r.value;
        disk := disk[x := PutWord(disk[x], off, next)];
        assert disk == old(disk)[x := disk[x]];
        FreshWritten(N, old(disk), root, old(InUse()), InUse(), x, disk[x]);
      }
    }

    /** The final step: store the pointer in pointer block `id`, which is block 0 after a missing pointer. */
    method SetSingly(id: nat, off: nat, v: nat, ghost leaf: seq<nat>)
      requires Valid() && IsLeaf(N, leaf) && |leaf| > 1 && off == Last(leaf) < N && |disk| > 0
      requires id == 0 || id == Val(disk, root, Parent(leaf))
      requires Linkable(N, disk, root, InUse(), v)
      modifies this`disk
      ensures Valid() && DataKept(N, old(disk), root, disk) && (v != 0 ==> disk[v] == old(disk)[v])
      ensures id != 0 ==> SlotSet(N, old(disk), root, disk, root, leaf, v)
      ensures id == 0 ==> SameVals(N, old(disk), root, disk, root)
      ensures Stored(old(disk), InUse(), disk, id, off, v)
    {
      ParentIsInner(N, leaf);
      if id != 0 {
        LeafWritten(N, disk, root, InUse(), leaf, v);
      } else {
        VoidWritten(N, disk, root, InUse(), PutWord(disk[0], off, v));
      }
      disk := disk[id := PutWord(disk[id], off, v)];
    }

    /** The doubly indirect step and the final one. */
    method SetDoubly(id: nat, blockId: nat, v: nat, ghost prefix: seq<nat>, ghost i: nat, ghost j: nat)
      returns (status: int)
      requires Valid() && i < N && j < N && blockId == 12 + N + (N * i + j) && id < |disk|
      requires prefix != [] && IsInner(N, prefix + [i]) && IsLeaf(N, prefix + [i] + [j])
      requires id == Val(disk, root, prefix) && (id == 0 ==> Word(disk[0], i) == 0)
      requires Linkable(N, disk, root, InUse(), v)
      modifies this`disk, table
      ensures Valid() && InUse() >= old(InUse()) && |disk| == |old(disk)|
      ensures DataKept(N, old(disk), root, disk) && (v != 0 ==> disk[v] == old(disk)[v])
      ensures status == 0 && id != 0 && Val(old(disk), root, prefix + [i]) != 0 ==>
        SlotSet(N, old(disk), root, disk, root, prefix + [i] + [j], v)
      ensures status != 0 || id == 0 || Val(old(disk), root, prefix + [i]) == 0 ==>
        SameVals(N, old(disk), root, disk, root)
      ensures Paid(old(table.superFree), table.superFree, status, One(Val(old(disk), root, prefix + [i])))
      ensures Stored(old(disk), old(InUse()), disk,
                     if status == 0 then Val(old(disk), root, prefix + [i]) else -1, j, v)
    {
      hide Sound, LeafSet, SlotSet, InnerKept, SameVals, DataKept, IsSlot, Used, Val, Word,
        Bitmap.InUse, Bitmap.Consistent;
      var off, left := ReduceDoubly(N, blockId, i, j);
      ghost var leaf := prefix + [i] + [j];
      PointerAt(N, disk, root, InUse(), prefix, i, j);
      var next;
      status, next := InnerStep(id, off);
      if status != 0 {
        return;
      }
      StillLinkable(N, old(disk), root, old(InUse()), disk, InUse(), v);
      ghost var mid := disk;
      SameValAt(N, old(disk), root, mid, prefix + [i]);
      SetSingly(next, left - 12, v, leaf);
      Compose(N, old(disk), root, mid, disk, leaf, v);
    }

    /** A data pointer in the singly indirect block. */
    method SetFirst(n: nat, v: nat) returns (status: int)
      requires Valid() && 12 <= n < 12 + N && Linkable(N, disk, root, InUse(), v)
      modifies this`disk, this`root, table
      ensures Valid() && InUse() >= old(InUse()) && |disk| == |old(disk)|
      ensures InnerKept(N, old(disk), old(root), disk, root)
      ensures DataKept(N, old(disk), old(root), disk) && (v != 0 ==> disk[v] == old(disk)[v])
      ensures status == 0 ==> LeafSet(N, old(disk), old(root), disk, root, PathOf(N, n), v)
      ensures status != 0 ==> SameLeaves(N, old(disk), old(root), disk, root)
      ensures StillFree(N, old(disk), old(root), old(InUse()), disk, root, InUse(), if status == 0 then v else 0)
      ensures Settled(N, old(disk), old(root), old(InUse()), old(table.superFree), disk, table.superFree, status, n, v)
    {
      hide Sound, LeafSet, SlotSet, InnerKept, SameVals, SameLeaves, DataKept, Used, PathOf, Val, IsSlot, Linkable,
        Stored, StillFree, Settled, Bitmap.InUse, Bitmap.Consistent;
      SinglyShape(N, n);
      var id;
      status, id := Hang(12);
      StoredNothing(N, old(disk), old(root), old(InUse()), disk, n - 12, v);
      KeptLinkable(N, old(disk), old(root), old(InUse()), disk, root, InUse(), v);
      if status != 0 {
        SinglySettled(N, old(disk), old(root), old(InUse()), old(table.superFree), disk, table.superFree, status, n, v);
        return;
      }
      ghost var mid := disk;
      ghost var leaf := [12, n - 12];
      RootVal(disk, root, 12);
      ghost var used := InUse();
      SetSingly(id, n - 12, v, leaf);
      ComposeLeaves(N, old(disk), old(root), mid, root, disk, root, leaf, v);
      StoredAfter(old(disk), old(InUse()), mid, used, disk, id, n - 12, v);
      SinglySettled(N, old(disk), old(root), old(InUse()), old(table.superFree), disk, table.superFree, status, n, v);
      StillFreeAfter(N, old(disk), old(root), old(InUse()), mid, root, used, disk, InUse(), leaf, v);
    }

    method SetSecond(n: nat, v: nat) returns (status: int)
      requires Valid() && 12 + N <= n < 12 + N + N * N && Linkable(N, disk, root, InUse(), v)
      modifies this`disk, this`root, table
      ensures Valid() && InUse() >= old(InUse()) && |disk| == |old(disk)|
      ensures InnerKept(N, old(disk), old(root), disk, root)
      ensures DataKept(N, old(disk), old(root), disk) && (v != 0 ==> disk[v] == old(disk)[v])
      ensures status == 0 && InnerPresent(N, old(disk), old(root), n) ==>
        LeafSet(N, old(disk), old(root), disk, root, PathOf(N, n), v)
      ensures status != 0 || !InnerPresent(N, old(disk), old(root), n) ==>
        SameLeaves(N, old(disk), old(root), disk, root)
      ensures StillFree(N, old(disk), old(root), old(InUse()), disk, root, InUse(),
                        if status == 0 && InnerPresent(N, old(disk), old(root), n) then v else 0)
      ensures Settled(N, old(disk), old(root), old(InUse()), old(table.superFree), disk, table.superFree, status, n, v)
    {
      hide Sound, LeafSet, SlotSet, InnerKept, SameVals, SameLeaves, DataKept, Used, PathOf, Val, Linkable,
        Stored, StillFree, Settled, Bitmap.InUse, Bitmap.Consistent;
      ghost var i, j := DoublyPath(N, n);
      DoublyShape(N, disk, root, n, i, j);
      RootVal(disk, root, 13);
      var id;
      status, id := Hang(13);
      StoredNothing(N, old(disk), old(root), old(InUse()), disk, j, v);
      KeptLinkable(N, old(disk), old(root), old(InUse()), disk, root, InUse(), v);
      if status != 0 {
        DoublySettled(N, old(disk), old(root), old(InUse()), old(table.superFree), disk, table.superFree, status, n, v,
                      i, j);
        return;
      }
      ghost var mid := disk;
      RootVal(disk, root, 13);
      ghost var used := InUse();
      status := SetDoubly(id, n, v, [13], i, j);
      ComposeLeaves(N, old(disk), old(root), mid, root, disk, root, [13] + [i] + [j], v);
      StoredAfter(old(disk), old(InUse()), mid, used, disk,
                  if status == 0 then Val(mid, root, [13] + [i]) else -1, j, v);
      DoublySettled(N, old(disk), old(root), old(InUse()), old(table.superFree), disk, table.superFree, status, n, v,
                    i, j);
      StillFreeAfter(N, old(disk), old(root), old(InUse()), mid, root, used, disk, InUse(), [13] + [i] + [j], v);
    }

    /** What the walk does when it has strayed into block 0: it follows whatever word it finds there. */
    method SetAstray(w: nat, off: nat, v: nat) returns (status: int)
      requires Mounted() && off < N && v < |disk|
      modifies this`disk
      ensures Mounted() && status == (if w < |disk| then 0 else EIO)
      ensures Stored(old(disk), InUse(), disk, if status == 0 then w else -1, off, v)
    {
      if w >= |disk| {
        return EIO;
      }
      disk := disk[w := PutWord(disk[w], off, v)];
      return 0;
    }

    /** Below the triply indirect block of the inode. */
    method SetBelow(id: nat, off: nat, blockId: nat, v: nat, ghost i: nat, ghost j: nat) returns (status: int)
      requires Valid() && off < N && i < N && j < N && blockId == 12 + N + (N * i + j)
      requires id == root[14] != 0 && Linkable(N, disk, root, InUse(), v)
      requires IsInner(N, [14, off]) && IsInner(N, [14, off] + [i]) && IsLeaf(N, [14, off] + [i] + [j])
      modifies this`disk, table
      ensures Mounted() && |disk| == |old(disk)| > 0
      ensures Val(old(disk), root, [14, off]) != 0 || Void(old(disk), i) == 0 ==>
        Valid() && InUse() >= old(InUse()) && DataKept(N, old(disk), root, disk) && (v != 0 ==> disk[v] == old(disk)[v])
      ensures Val(old(disk), root, [14, off]) != 0 && status == 0 && Val(old(disk), root, [14, off] + [i]) != 0 ==>
        SlotSet(N, old(disk), root, disk, root, [14, off] + [i] + [j], v)
      ensures status != 0 || Val(old(disk), root, [14, off] + [i]) == 0 ==>
        SameVals(N, old(disk), root, disk, root) || (Val(old(disk), root, [14, off]) == 0 && Void(old(disk), i) != 0)
      ensures InUse() >= old(InUse())
      ensures Paid(old(table.superFree), table.superFree, if status == EIO then 0 else status,
                   NeededBelow(old(disk), root, [14, off, i, j]))
      ensures Stored(old(disk), old(InUse()), disk,
                     if status != 0 then -1
                     else if Val(old(disk), root, [14, off]) == 0 then Void(old(disk), i)
                     else Val(old(disk), root, [14, off] + [i]), j, v)
      ensures Val(old(disk), root, [14, off]) == 0 && Void(old(disk), i) >= |disk| ==> status != 0
      ensures status == EIO ==> Val(old(disk), root, [14, off]) == 0 && Void(old(disk), i) >= |disk|
    {
      hide Sound, LeafSet, SlotSet, InnerKept, SameVals, SameLeaves, DataKept, Used, IsSlot, Val, Word,
        Linkable, Stored, Bitmap.InUse, Bitmap.Consistent;
      TopAt(N, disk, root, InUse(), off);
      TopMissing(N, disk, root, off, i);
      var next;
      assert [14, off, i, j][..2] == [14, off] && [14, off, i, j][..3] == [14, off] + [i];
      status, next := InnerStep(id, off);
      StoredNothing(N, old(disk), old(root), old(InUse()), disk, j, v);
      VoidKept(old(disk), old(InUse()), disk, i);
      if status != 0 {
        return;
      }
      ghost var mid, used := disk, InUse();
      SameValAt(N, old(disk), root, mid, [14, off]);
      SameValAt(N, old(disk), root, mid, [14, off] + [i]);
      StillLinkable(N, old(disk), root, old(InUse()), disk, InUse(), v);
      if next == 0 {
        var off', left := ReduceDoubly(N, blockId, i, j);
        var w := ReadWord(0, off');
        if w != 0 {
          status := SetAstray(w, left - 12, v);
          StoredAfter(old(disk), old(InUse()), mid, used, disk, if status == 0 then w else -1, j, v);
          return;
        }
      }
      status := SetDoubly(next, blockId, v, [14, off], i, j);
      Compose(N, old(disk), root, mid, disk, [14, off] + [i] + [j], v);
      StoredAfter(old(disk), old(InUse()), mid, used, disk,
                  if status == 0 then Val(mid, root, [14, off] + [i]) else -1, j, v);
    }

    method SetThird(n: nat, v: nat) returns (status: int)
      requires Valid() && 12 + N + N * N <= n < Blocks(N) && Linkable(N, disk, root, InUse(), v)
      modifies this`disk, this`root, table
      ensures Mounted() && |disk| == |old(disk)|
      ensures !Stray(N, old(disk), old(root), n) ==> InnerKept(N, old(disk), old(root), disk, root)
      ensures !Stray(N, old(disk), old(root), n) ==>
        && Valid() && InUse() >= old(InUse()) && DataKept(N, old(disk), old(root), disk)
        && (v != 0 ==> disk[v] == old(disk)[v])
      ensures !Stray(N, old(disk), old(root), n) && status == 0 && InnerPresent(N, old(disk), old(root), n) ==>
        LeafSet(N, old(disk), old(root), disk, root, PathOf(N, n), v)
      ensures !Stray(N, old(disk), old(root), n) && (status != 0 || !InnerPresent(N, old(disk), old(root), n)) ==>
        SameLeaves(N, old(disk), old(root), disk, root)
      ensures !Stray(N, old(disk), old(root), n) ==>
        StillFree(N, old(disk), old(root), old(InUse()), disk, root, InUse(),
                  if status == 0 && InnerPresent(N, old(disk), old(root), n) then v else 0)
      ensures Settled(N, old(disk), old(root), old(InUse()), old(table.superFree), disk, table.superFree, status, n, v)
      ensures |root| == 15 && root == old(root)[14 := root[14]] && (old(root[14]) != 0 ==> root[14] == old(root[14]))
      ensures AsBefore(N, old(disk), old(root), disk, root, Landing(N, old(disk), old(root), n))
    {
      hide Sound, LeafSet, SlotSet, InnerKept, SameVals, SameLeaves, DataKept, Used, PathOf, Blocks, Val,
        Word, Linkable, Stored, StillFree, Settled, AsBefore, Stray, InnerPresent, Void, Needed, NeededBelow, Landing,
        Bitmap.InUse, Bitmap.Consistent;
      var off, blockId;
      ghost var i, j;
      off, blockId, i, j := ReduceTriply(N, n);
      TriplyShape(N, n, off, i, j);
      TopMissing(N, disk, root, off, i);
      var id;
      TriplyCost(N, disk, root, n, off, i, j);
      status, id := Hang(14);
      StoredNothing(N, old(disk), old(root), old(InUse()), disk, j, v);
      KeptLinkable(N, old(disk), old(root), old(InUse()), disk, root, InUse(), v);
      VoidKept(old(disk), old(InUse()), disk, i);
      if status != 0 {
        TriplySettled(N, old(disk), old(root), old(InUse()), old(table.superFree), disk, table.superFree,
                      status, n, v, off, i, j);
        StrayLookups(N, old(disk), old(root), old(InUse()), old(table.superFree), disk, root, table.superFree,
                     status, n, v);
        return;
      }
      BelowKept(N, old(disk), old(root), disk, root, off, i, j);
      ghost var mid, root', used := disk, root, InUse();
      status := SetBelow(id, off, blockId, v, i, j);
      StoredAfter(old(disk), old(InUse()), mid, used, disk,
                  if status != 0 then -1 else if Val(mid, root, [14, off]) == 0 then Void(mid, i)
                  else Val(mid, root, [14, off] + [i]), j, v);
      TriplySettled(N, old(disk), old(root), old(InUse()), old(table.superFree), disk, table.superFree,
                    status, n, v, off, i, j);
      StrayLookups(N, old(disk), old(root), old(InUse()), old(table.superFree), disk, root, table.superFree,
                   status, n, v);
      if !Stray(N, old(disk), old(root), n) {
        ComposeLeaves(N, old(disk), old(root), mid, root', disk, root, PathOf(N, n), v);
        StillFreeAfter(N, old(disk), old(root), old(InUse()), mid, root, used, disk, InUse(), PathOf(N, n), v);
      }
    }

    /**
     ext2_set_block_id. The pointer is set, and every other file block keeps its
     pointer, exactly when all pointer blocks below the inode's own slots exist;
     otherwise the source stores it in block 0 and the file keeps a hole there.
     */
    method SetBlockId(n: nat, v: nat) returns (status: int)
      requires Valid() && n < Blocks(N) && Linkable(N, disk, root, InUse(), v)
      modifies this`disk, this`root, table
      ensures Mounted() && |disk| == |old(disk)|
      ensures !Stray(N, old(disk), old(root), n) ==> InnerKept(N, old(disk), old(root), disk, root)
      ensures !Stray(N, old(disk), old(root), n) ==>
        && Valid() && InUse() >= old(InUse()) && DataKept(N, old(disk), old(root), disk)
        && (v != 0 ==> disk[v] == old(disk)[v])
      ensures !Stray(N, old(disk), old(root), n) && status == 0 && InnerPresent(N, old(disk), old(root), n) ==>
        LeafSet(N, old(disk), old(root), disk, root, PathOf(N, n), v)
      ensures !Stray(N, old(disk), old(root), n) && (status != 0 || !InnerPresent(N, old(disk), old(root), n)) ==>
        SameLeaves(N, old(disk), old(root), disk, root)
      ensures !Stray(N, old(disk), old(root), n) ==>
        StillFree(N, old(disk), old(root), old(InUse()), disk, root, InUse(),
                  if status == 0 && InnerPresent(N, old(disk), old(root), n) then v else 0)
      ensures Settled(N, old(disk), old(root), old(InUse()), old(table.superFree), disk, table.superFree, status, n, v)
      ensures Stray(N, old(disk), old(root), n) ==>
        && |root| == 15 && root == old(root)[14 := root[14]] && (old(root[14]) != 0 ==> root[14] == old(root[14]))
        && AsBefore(N, old(disk), old(root), disk, root, Landing(N, old(disk), old(root), n))
    {
      hide Sound, LeafSet, SlotSet, InnerKept, SameLeaves, Used, Val, Word, Blocks, Settled, StillFree, AsBefore,
        Linkable, Bitmap.InUse, Bitmap.Consistent;
      if n >= 12 + N + N * N {
        status := SetThird(n, v);
      } else if n >= 12 + N {
        status := SetSecond(n, v);
      } else if n >= 12 {
        status := SetFirst(n, v);
      } else {
        DirectWritten(N, disk, root, InUse(), n, v, table.superFree);
        root := root[n := v];
        status := 0;
      }
    }

    /** ext2_alloc_block for a data block: it changes no pointer and no byte of the file. */
    method AllocData(hint: nat) returns (r: Option<nat>)
      requires Valid() && (hint == 0 || hint in InUse())
      modifies this`disk, table
      ensures Valid() && InUse() >= old(InUse()) && |disk| == |old(disk)|
      ensures SameVals(N, old(disk), root, disk, root) && DataKept(N, old(disk), root, disk)
      ensures r.Some? ==> r.value != 0 && Linkable(N, disk, root, InUse(), r.value) && disk[r.value] == Zeros(4 * N)
      ensures r.Some? ==> r.value !in old(InUse())
      ensures r.None? ==> Missed(table.s, table.groups, table.superFree)
      ensures hint == 0 ==> (r.None? <==> old(table.superFree) == 0)
      ensures table.superFree == if r.Some? then old(table.superFree) - 1 else old(table.superFree)
      ensures Stored(old(disk), old(InUse()), disk, -1, 0, 0)
      ensures Elsewhere(N, old(disk), root, old(InUse()), disk, root, InUse(), 0)
    {
      r := AllocZeroed(hint);
      if r.Some? {
        FreshWritten(N, old(disk), root, old(InUse()), InUse(), r.value, Zeros(4 * N));
        WrittenElsewhere(N, old(disk), root, old(InUse()), InUse(), r.value, Zeros(4 * N));
      }
    }

    /**
     The part of ext2_write_inode that makes sure file block `n` has a data block. If
     the inner pointer block is missing, the new block is not part of the file.
     */
    method Provide(n: nat, hint: nat) returns (status: int, addr: nat)
      requires Valid() && n < Blocks(N) && Firm(N, disk, root, n)
      requires hint == 0 || hint in InUse()
      modifies this`disk, this`root, table
      ensures Valid() && InUse() >= old(InUse()) && |disk| == |old(disk)|
      ensures SameBytes(N, old(disk), old(root), disk, root) && SlotsKept(N, old(disk), old(root), disk, root)
      ensures status == 0 && InnerPresent(N, old(disk), old(root), n) ==> addr == Val(disk, root, PathOf(N, n)) != 0
      ensures status == 0 && !InnerPresent(N, old(disk), old(root), n) ==>
        addr != 0 && Linkable(N, disk, root, InUse(), addr) && addr !in old(InUse())
      ensures status != 0 ==> status == ENOSPC && Missed(table.s, table.groups, table.superFree)
      ensures status != 0 ==> Val(old(disk), old(root), PathOf(N, n)) == 0
      ensures hint == 0 ==> Paid(old(table.superFree), table.superFree, status, Cost(N, old(disk), old(root), n))
      ensures Val(old(disk), old(root), PathOf(N, n)) != 0 ==> table.superFree == old(table.superFree)
      ensures Elsewhere(N, old(disk), old(root), old(InUse()), disk, root, InUse(), 0)
    {
      hide Sound, SlotSet, SlotsKept, SameLeaves, DataKept, SameBytes, PathOf, Blocks, Val, Used, Missed, Needed,
        Stored, Bitmap.InUse, Bitmap.Consistent, BlockBytes, InnerPresent, Stray, Linkable, SameVals, Elsewhere,
        Firm;
      SameStart(N, disk, root, InUse());
      addr := DecodeBlockId(n);
      status := 0;
      if addr != 0 {
        if !InnerPresent(N, disk, root, n) {
          MissingHole(N, disk, root, n);
        }
        return;
      }
      var r := AllocData(hint);
      SameValsKeep(N, old(disk), old(root), disk, root);
      BytesKept(N, old(disk), old(root), disk, root);
      if r.None? {
        return ENOSPC, 0;
      }
      ghost var mid, used := disk, InUse();
      SameNeeded(N, old(disk), root, old(InUse()), disk, n);
      status := Link(n, r.value, old(disk));
      ElsewhereTwice(N, old(disk), old(root), old(InUse()), mid, old(root), used, disk, root, InUse(), r.value);
      addr := r.value;
    }

    /** ext2_set_block_id of a zeroed block where the file has a hole. */
    method Link(n: nat, v: nat, ghost was: seq<seq<byte>>) returns (status: int)
      requires Valid() && n < Blocks(N) && Firm(N, was, root, n) && Val(was, root, PathOf(N, n)) == 0
      requires SameVals(N, was, root, disk, root) && DataKept(N, was, root, disk)
      requires v != 0 && Linkable(N, disk, root, InUse(), v) && disk[v] == Zeros(4 * N)
      modifies this`disk, this`root, table
      ensures Valid() && InUse() >= old(InUse()) && |disk| == |old(disk)|
      ensures SameBytes(N, was, old(root), disk, root) && SlotsKept(N, was, old(root), disk, root)
      ensures status == 0 && InnerPresent(N, was, old(root), n) ==> v == Val(disk, root, PathOf(N, n))
      ensures status == 0 && !InnerPresent(N, was, old(root), n) ==> Linkable(N, disk, root, InUse(), v)
      ensures status != 0 ==> status == ENOSPC && Missed(table.s, table.groups, table.superFree)
      ensures Paid(old(table.superFree), table.superFree, status, Needed(N, old(disk), old(root), n))
      ensures Elsewhere(N, old(disk), old(root), old(InUse()), disk, root, InUse(), v)
    {
      hide Sound, SlotSet, SlotsKept, SameLeaves, DataKept, SameBytes, PathOf, Blocks, Val, Used, Elsewhere, Missed,
        Stored, Needed, Landing, Bitmap.InUse, Bitmap.Consistent, BlockBytes, InnerPresent, Stray, SameVals, Firm,
        Linkable, InnerKept, LeafSet, StillFree;
      SameValsKeep(N, was, root, disk, root);
      BytesKept(N, was, root, disk, root);
      SamePresent(N, was, root, disk, root, n);
      StillFirm(N, was, root, disk, root, n);
      FirmNotStray(N, disk, root, n);
      PathOfIsLeaf(N, n);
      SameValAt(N, was, root, disk, PathOf(N, n));
      ghost var mid, root' := disk, root;
      LinkableRange(N, disk, root, InUse(), v);
      status := SetBlockId(n, v);
      if !(status == 0 && InnerPresent(N, mid, root', n)) {
        KeptLinkable(N, mid, root', old(InUse()), disk, root, InUse(), v);
      }
      SettledElsewhere(N, mid, root', old(InUse()), old(table.superFree), disk, root, InUse(), table.superFree, status,
                       n, v);
      HoleFilled(N, mid, root', disk, root, PathOf(N, n), v);
      NoneLeft(table.s, table.groups, table.superFree);
      KeptTwice(N, was, root', mid, root', disk, root);
      if status == 0 && InnerPresent(N, mid, root', n) {
        BytesLinked(N, mid, root', disk, root, n, v);
        LeafNow(N, mid, root', disk, root, PathOf(N, n), v);
      } else {
        BytesKept(N, mid, root', disk, root);
      }
      SameTwice(N, was, root', mid, root', disk, root);
    }

    /** One turn of the ext2_write_inode loop. */
    method WriteChunk(n: nat, inBlock: nat, d: seq<byte>, hint: nat) returns (status: int, addr: nat)
      requires Valid() && n < Blocks(N) && Firm(N, disk, root, n) && inBlock + |d| <= 4 * N
      requires hint == 0 || hint in InUse()
      modifies this`disk, this`root, table
      ensures Valid() && InUse() >= old(InUse()) && |disk| == |old(disk)|
      ensures SlotsKept(N, old(disk), old(root), disk, root)
      ensures status == 0 ==> addr in InUse() && Wrote(N, old(disk), old(root), disk, root, At(N, n, inBlock), d)
      ensures status == 0 && InnerPresent(N, old(disk), old(root), n) ==> Val(disk, root, PathOf(N, n)) != 0
      ensures status != 0 ==> Wrote(N, old(disk), old(root), disk, root, At(N, n, inBlock), [])
      ensures status != 0 ==> status == ENOSPC && Missed(table.s, table.groups, table.superFree)
      ensures status != 0 ==> Val(old(disk), old(root), PathOf(N, n)) == 0
      ensures hint == 0 ==> Paid(old(table.superFree), table.superFree, status, Cost(N, old(disk), old(root), n))
      ensures Val(old(disk), old(root), PathOf(N, n)) != 0 ==> table.superFree == old(table.superFree)
      ensures Elsewhere(N, old(disk), old(root), old(InUse()), disk, root, InUse(), 0)
    {
      hide SlotSet, SlotsKept, SameLeaves, DataKept, SameBytes, PathOf, Blocks, Val, Used, Missed, Cost, Elsewhere,
        Bitmap.InUse, Bitmap.Consistent, InnerPresent, SameVals, Wrote, BlockSet, Overlay, Firm, Sound, BlockBytes;
      status, addr := Provide(n, hint);
      if status != 0 {
        WroteNothing(N, old(disk), old(root), disk, root, At(N, n, inBlock));
        return;
      }
      ghost var mid, root' := disk, root;
      if InnerPresent(N, old(disk), old(root), n) {
        BlockHere(N, disk, root, InUse(), n);
        BytesWritten(N, disk, root, InUse(), n, Overlay(disk[addr], inBlock, d));
        ReferencedElsewhere(N, disk, root, InUse(), n, Overlay(disk[addr], inBlock, d));
        ElsewhereTwice(N, old(disk), old(root), old(InUse()), mid, root', InUse(),
                       disk[addr := Overlay(disk[addr], inBlock, d)], root, InUse(), 0);
      } else {
        assert |disk[addr]| == 4 * N;
        LooseWritten(N, disk, root, InUse(), addr, Overlay(disk[addr], inBlock, d));
        ElsewhereTwice(N, old(disk), old(root), old(InUse()), mid, root', InUse(),
                       disk[addr := Overlay(disk[addr], inBlock, d)], root, InUse(), addr);
      }
      disk := disk[addr := Overlay(disk[addr], inBlock, d)];
      SameValsKeep(N, mid, root, disk, root);
      KeptTwice(N, old(disk), old(root), mid, root, disk, root);
      if InnerPresent(N, old(disk), old(root), n) {
        PathOfIsLeaf(N, n);
        SameValAt(N, mid, root, disk, PathOf(N, n));
        BlockSetAfterSame(N, old(disk), old(root), mid, root, disk, n, Overlay(mid[addr], inBlock, d));
        SameBytesAt(N, old(disk), old(root), mid, root, n);
        ChunkWrote(N, old(disk), old(root), disk, root, n, inBlock, d);
      } else {
        SameTwice(N, old(disk), old(root), mid, root, disk, root);
        ChunkLost(N, old(disk), old(root), disk, root, n, inBlock, d);
      }
    }

    /** One turn of the loop: the bytes from `count` to the end of their file block. */
    method WriteTurn(buffer: seq<byte>, at: nat, count: nat, hint: nat) returns (status: int, part: nat, addr: nat)
      requires Valid() && count < |buffer| && Writable(N, disk, root, at, |buffer|)
      requires hint == 0 || hint in InUse()
      modifies this`disk, this`root, table
      ensures Valid() && InUse() >= old(InUse()) && |disk| == |old(disk)|
      ensures SlotsKept(N, old(disk), old(root), disk, root)
      ensures 0 < part <= |buffer| - count
      ensures InBlock(N, at + count) + (|buffer| - count) <= 4 * N ==> part == |buffer| - count
      ensures status == 0 ==> addr in InUse()
      ensures Wrote(N, old(disk), old(root), disk, root, at + count,
                    if status == 0 then buffer[count..count + part] else [])
      ensures status != 0 ==> status == ENOSPC && Missed(table.s, table.groups, table.superFree)
      ensures status != 0 ==> Val(old(disk), old(root), PathOf(N, FileBlock(N, at + count))) == 0
      ensures hint == 0 ==>
        Paid(old(table.superFree), table.superFree, status, Cost(N, old(disk), old(root), FileBlock(N, at + count)))
      ensures Val(old(disk), old(root), PathOf(N, FileBlock(N, at + count))) != 0 ==>
        table.superFree == old(table.superFree)
      ensures status == 0 && InnerPresent(N, old(disk), old(root), FileBlock(N, at + count)) ==>
        Val(disk, root, PathOf(N, FileBlock(N, at + count))) != 0
      ensures Elsewhere(N, old(disk), old(root), old(InUse()), disk, root, InUse(), 0)
    {
      hide SlotsKept, Val, Used, Sound, Bitmap.InUse, Bitmap.Consistent, Wrote, InnerPresent, Blocks, FileBlock,
        InBlock, At, Firm, Cost, Elsewhere, Missed;
      var inFile := count + at;
      var inBlock := InBlock(N, inFile);
      part := |buffer| - count;
      if part > 4 * N - inBlock {
        part := 4 * N - inBlock;
      }
      assert InFile(N, inFile);
      AtInverse(N, inFile);
      status, addr := WriteChunk(FileBlock(N, inFile), inBlock, buffer[count..count + part], hint);
    }

    /**
     ext2_write_inode on a regular file. Of the first `n` bytes of the buffer those
     reach the file, at `at`, whose inner pointer block exists; the others are lost
     without a word. The call fails only at a hole, when a search for a free block
     misses, and then reports 0. No block of another file changes.
     */
    method WriteInode(buffer: seq<byte>, at: nat) returns (status: int, written: nat, ghost n: nat)
      requires Valid() && Writable(N, disk, root, at, |buffer|)
      modifies this`disk, this`root, table
      ensures Valid() && n <= |buffer|
      ensures Wrote(N, old(disk), old(root), disk, root, at, buffer[..n])
      ensures if status == 0 then written == n == |buffer| else written == 0
      ensures status != 0 ==> status == ENOSPC && Missed(table.s, table.groups, table.superFree)
      ensures status != 0 ==> n < |buffer| && Val(old(disk), old(root), PathOf(N, FileBlock(N, at + n))) == 0
      ensures SlotsKept(N, old(disk), old(root), disk, root) && InUse() >= old(InUse()) && |disk| == |old(disk)|
      ensures Elsewhere(N, old(disk), old(root), old(InUse()), disk, root, InUse(), 0)
      ensures |buffer| > 0 && InBlock(N, at) + |buffer| <= 4 * N ==>
        && Paid(old(table.superFree), table.superFree, status, Cost(N, old(disk), old(root), FileBlock(N, at)))
        && (status != 0 ==> n == 0)
        && (status == 0 && InnerPresent(N, old(disk), old(root), FileBlock(N, at)) ==>
              Val(disk, root, PathOf(N, FileBlock(N, at))) != 0)
      ensures NoHoles(N, old(disk), old(root), at, |buffer|) ==> status == 0 && table.superFree == old(table.superFree)
    {
      hide SlotsKept, Val, Used, Sound, Bitmap.InUse, Bitmap.Consistent, Wrote, Writable, Blocks, Missed, Elsewhere,
        FileBlock, PathOf, InBlock, Cost, NoHoles, InnerPresent;
      var count, p := 0, 0;
      n := 0;
      SameStart(N, disk, root, InUse());
      WroteNothing(N, disk, root, disk, root, at);
      assert buffer[..0] == [];
      while count < |buffer|
        invariant n == count <= |buffer| && Valid() && |disk| == |old(disk)|
        invariant p == 0 || p in InUse()
        invariant SlotsKept(N, old(disk), old(root), disk, root) && InUse() >= old(InUse())
        invariant Elsewhere(N, old(disk), old(root), old(InUse()), disk, root, InUse(), 0)
        invariant Wrote(N, old(disk), old(root), disk, root, at, buffer[..count])
        invariant count == 0 ==>
          p == 0 && disk == old(disk) && root == old(root) && table.superFree == old(table.superFree)
        invariant count > 0 && InBlock(N, at) + |buffer| <= 4 * N ==>
          && count == |buffer|
          && Paid(old(table.superFree), table.superFree, 0, Cost(N, old(disk), old(root), FileBlock(N, at)))
          && (InnerPresent(N, old(disk), old(root), FileBlock(N, at)) ==>
                Val(disk, root, PathOf(N, FileBlock(N, at))) != 0)
        invariant NoHoles(N, old(disk), old(root), at, |buffer|) ==> table.superFree == old(table.superFree)
        decreases |buffer| - count
      {
        ghost var mid, root', used := disk, root, InUse();
        StillWritable(N, old(disk), old(root), disk, root, at, |buffer|);
        if NoHoles(N, old(disk), old(root), at, |buffer|) {
          NoHoleAt(N, old(disk), old(root), disk, root, at, |buffer|, at + count);
        }
        var part, addr;
        status, part, addr := WriteTurn(buffer, at, count, p);
        ElsewhereTwice(N, old(disk), old(root), old(InUse()), mid, root', used, disk, root, InUse(), 0);
        if status != 0 {
          KeptHole(N, old(disk), old(root), mid, root', at, |buffer|, at + count);
          assert buffer[count..count] == [];
          WroteMore(N, old(disk), old(root), mid, root', disk, root, at, buffer, count, count);
          KeptTwice(N, old(disk), old(root), mid, root', disk, root);
          return status, 0, count;
        }
        WroteMore(N, old(disk), old(root), mid, root', disk, root, at, buffer, count, count + part);
        KeptTwice(N, old(disk), old(root), mid, root', disk, root);
        p := addr;
        count := count + part;
        n := count;
      }
      status, written := 0, count;
    }

    /** ext2_read_inode on a regular file, clipped at the file size; a hole reads as zeros. */
    method ReadInode(at: nat, length: nat) returns (status: int, bytes: seq<byte>)
      requires Valid() && forall o :: 0 <= o < size ==> InFile(N, o)
      ensures at > size ==> status == EINVAL && bytes == []
      ensures at <= size ==> status == 0 && |bytes| == if at + length > size then size - at else length
      ensures forall i :: 0 <= i < |bytes| ==> bytes[i] == FileByte(N, disk, root, at + i)
    {
      hide Sound, Val, Blocks, At, FileBlock, InBlock, BlockBytes;
      bytes := [];
      if at > size {
        return EINVAL, [];
      }
      var len := length;
      if len + at > size {
        len := size - at;
      }
      var count := 0;
      while count < len
        invariant |bytes| == count <= len
        invariant forall i :: 0 <= i < count ==> bytes[i] == FileByte(N, disk, root, at + i)
        decreases len - count
      {
        var d := ReadTurn(at + count, len - count);
        count := count + |d|;
        bytes := bytes + d;
      }
      status := 0;
    }

    /** One turn of the read loop: the bytes up to the end of their file block. */
    method ReadTurn(inFile: nat, left: nat) returns (d: seq<byte>)
      requires Valid() && left > 0 && InFile(N, inFile)
      ensures 0 < |d| <= left
      ensures forall i :: 0 <= i < |d| ==> d[i] == FileByte(N, disk, root, inFile + i)
    {
      hide Sound, Val, Blocks, At, FileBlock, InBlock;
      var inBlock := InBlock(N, inFile);
      var part := left;
      if part > 4 * N - inBlock {
        part := 4 * N - inBlock;
      }
      var n := FileBlock(N, inFile);
      var addr := DecodeBlockId(n);
      PathOfIsLeaf(N, n);
      BlockPointer(N, disk, root, InUse(), n);
      if addr != 0 {
        d := disk[addr][inBlock..inBlock + part];
      } else {
        d := Zeros(part);
      }
      forall i | 0 <= i < |d|
        ensures d[i] == FileByte(N, disk, root, inFile + i)
      {
        SameBlock(N, inFile, i);
      }
    }
  }
}
