/**
 The file of an ext2 directory: fs/ext2/dir.c reads and writes it with
 ext2_read_inode and ext2_write_inode (fs/ext2/inode.c), and makes it grow by a
 block at a time, size first.
 */
module Ext2DirFile {
  import opened Arith
  import opened Bytes
  import opened Ext2Tree
  import opened Ext2File

  /** Nothing but zeros from byte `k` on. */
  ghost predicate Bare(N: nat, disk: seq<seq<byte>>, root: seq<nat>, k: nat) {
    forall o: nat :: k <= o && InFile(N, o) ==> FileByte(N, disk, root, o) == 0
  }

  lemma BareKept(N: nat, disk: seq<seq<byte>>, root: seq<nat>, disk': seq<seq<byte>>, root': seq<nat>,
                 at: nat, d: seq<byte>, k: nat)
    requires Bare(N, disk, root, k) && Wrote(N, disk, root, disk', root', at, d) && at + |d| <= k
    ensures Bare(N, disk', root', k)
  {
  }

  /** A byte in a data block has its inner pointer blocks. */
  lemma HeldPresent(N: nat, disk: seq<seq<byte>>, root: seq<nat>, at: nat, len: nat)
    requires NoHoles(N, disk, root, at, len)
    ensures Writable(N, disk, root, at, len)
    ensures forall o :: at <= o < at + len ==> o in Present(N, disk, root)
  {
    hide PathOf, Val, Firm, InnerPresent, FileBlock, Blocks;
    forall o | at <= o < at + len
      ensures InFile(N, o) && InnerPresent(N, disk, root, FileBlock(N, o)) && Firm(N, disk, root, FileBlock(N, o))
    {
      assert InFile(N, o);
      if !InnerPresent(N, disk, root, FileBlock(N, o)) {
        MissingHole(N, disk, root, FileBlock(N, o));
      }
      PresentFirm(N, disk, root, FileBlock(N, o));
    }
  }

  lemma NoHolesKept(N: nat, disk: seq<seq<byte>>, root: seq<nat>, disk': seq<seq<byte>>, root': seq<nat>, k: nat)
    requires NoHoles(N, disk, root, 0, k) && SlotsKept(N, disk, root, disk', root')
    ensures NoHoles(N, disk', root', 0, k)
  {
    hide SlotsKept, PathOf, Val, FileBlock;
    forall o | 0 <= o < k
      ensures InFile(N, o) && Val(disk', root', PathOf(N, FileBlock(N, o))) != 0
    {
      assert InFile(N, o);
      NoHoleAt(N, disk, root, disk', root', 0, k, o);
    }
  }

  /** Pointers that are set stay, blocks in use stay in use, and no block of another file changes. */
  ghost predicate Undisturbed(N: nat, disk: seq<seq<byte>>, root: seq<nat>, used: iset<nat>,
                              disk': seq<seq<byte>>, root': seq<nat>, used': iset<nat>) {
    SlotsKept(N, disk, root, disk', root') && used <= used' && Elsewhere(N, disk, root, used, disk', root', used', 0)
  }

  lemma UndisturbedStart(N: nat, disk: seq<seq<byte>>, root: seq<nat>, used: iset<nat>)
    requires N > 0
    ensures Undisturbed(N, disk, root, used, disk, root, used)
  {
    SameStart(N, disk, root, used);
  }

  lemma UndisturbedTwice(N: nat, disk: seq<seq<byte>>, root: seq<nat>, used: iset<nat>,
                         mid: seq<seq<byte>>, root': seq<nat>, used': iset<nat>,
                         disk': seq<seq<byte>>, root'': seq<nat>, used'': iset<nat>)
    requires Undisturbed(N, disk, root, used, mid, root', used')
    requires Undisturbed(N, mid, root', used', disk', root'', used'')
    ensures Undisturbed(N, disk, root, used, disk', root'', used'')
  {
    KeptTwice(N, disk, root, mid, root', disk', root'');
    ElsewhereTwice(N, disk, root, used, mid, root', used', disk', root'', used'', 0);
  }

  lemma UndisturbedPresent(N: nat, disk: seq<seq<byte>>, root: seq<nat>, used: iset<nat>,
                           disk': seq<seq<byte>>, root': seq<nat>, used': iset<nat>, n: nat)
    requires N > 0 && n < Blocks(N) && Undisturbed(N, disk, root, used, disk', root', used')
    ensures InnerPresent(N, disk', root', n) <==> InnerPresent(N, disk, root, n)
  {
    SamePresent(N, disk, root, disk', root', n);
  }

  /** The bytes of the block that starts at `k`. */
  lemma InNewBlock(N: nat, k: nat, o: nat)
    requires N > 0 && InBlock(N, k) == 0 && k <= o < k + 4 * N
    ensures FileBlock(N, o) == FileBlock(N, k) && InBlock(N, o) == o - k
  {
    SameBlock(N, k, o - k);
  }

  lemma NextBlock(N: nat, k: nat)
    requires N > 0 && InBlock(N, k) == 0
    ensures InBlock(N, k + 4 * N) == 0 && FileBlock(N, k + 4 * N) == FileBlock(N, k) + 1
  {
    var S := 4 * N;
    assert k == S * (k / S) + k % S;
    assert S * (k / S + 1) == S * (k / S) + S;
    DivUnique(S, k / S + 1, 0);
  }

  /** One block more without a hole. */
  lemma NoHolesNext(N: nat, disk: seq<seq<byte>>, root: seq<nat>, k: nat)
    requires N > 0 && NoHoles(N, disk, root, 0, k) && InBlock(N, k) == 0 && InFile(N, k)
    requires Val(disk, root, PathOf(N, FileBlock(N, k))) != 0
    ensures NoHoles(N, disk, root, 0, k + 4 * N)
  {
    hide PathOf, Val, FileBlock, InBlock;
    forall o | 0 <= o < k + 4 * N
      ensures InFile(N, o) && Val(disk, root, PathOf(N, FileBlock(N, o))) != 0
    {
      if o < k {
        assert InFile(N, o);
      } else {
        InNewBlock(N, k, o);
      }
    }
  }

  /** A walk that does not break off at the very top finds at most two pointer blocks missing. */
  lemma FewNeeded(N: nat, disk: seq<seq<byte>>, root: seq<nat>, n: nat)
    requires N > 0 && n < Blocks(N) && Firm(N, disk, root, n)
    ensures Needed(N, disk, root, n) <= 2
    ensures n < 12 + N ==> Needed(N, disk, root, n) <= 1
  {
    PathOfIsLeaf(N, n);
    var path := PathOf(N, n);
    if |path| == 4 {
      assert path[..2][..1] == path[..1] && Parent(path[..2]) == path[..1];
    }
  }

  class DirFile {
    const file: File
    /** What the file reads as. */
    ghost var bytes: seq<byte>

    function BlockSize(): nat {
      4 * file.N
    }

    ghost predicate Tied()
      reads `bytes, file, file.table
    {
      && file.Valid() && 1024 <= 4 * file.N < 0x1_0000 && file.size == |bytes|
      && (forall o :: 0 <= o < |bytes| ==> InFile(file.N, o))
      && bytes == Contents(file.N, file.disk, file.root, |bytes|)
    }

    /** The first `k` bytes have their data blocks, and there is nothing behind the end. */
    ghost predicate Grounded(k: nat)
      reads `bytes, file, file.table
    {
      && Tied() && InBlock(file.N, |bytes|) == 0 && NoHoles(file.N, file.disk, file.root, 0, k)
      && Bare(file.N, file.disk, file.root, |bytes|)
    }

    ghost predicate Valid()
      reads `bytes, file, file.table
    {
      Grounded(|bytes|)
    }

    /** An inode without blocks. */
    constructor (file: File)
      requires file.Valid() && 1024 <= 4 * file.N < 0x1_0000 && file.size == 0
      requires forall q :: IsSlot(file.N, q) ==> Val(file.disk, file.root, q) == 0
      ensures Valid() && this.file == file && bytes == []
    {
      this.file, bytes := file, [];
      new;
      forall o: nat | InFile(file.N, o)
        ensures FileByte(file.N, file.disk, file.root, o) == 0
      {
        PathOfIsLeaf(file.N, FileBlock(file.N, o));
      }
      DivUnique(4 * file.N, 0, 0);
    }

    lemma Ready()
      requires Valid()
      ensures Tied() && file.Valid() && file.table.s.perGroup > 0 && file.size == |bytes|
      ensures 1024 <= BlockSize() < 0x1_0000
    {
    }

    lemma Aligned()
      requires Valid()
      ensures file.N > 0 && InBlock(file.N, |bytes|) == 0
    {
    }

    lemma Extent(k: nat)
      requires file.N > 0 && Fresh(k)
      ensures |bytes| == k + BlockSize()
    {
    }

    lemma Less(k: nat)
      ensures Grounded(k) ==> Tied() && file.Valid() && file.table.s.perGroup > 0
      ensures Valid() && k <= |bytes| ==> Grounded(k)
    {
    }

    /** ext2_read_inode inside the file. */
    method ReadAt(pos: nat, len: nat) returns (d: seq<byte>)
      requires Tied() && pos + len <= |bytes|
      ensures d == bytes[pos..pos + len]
    {
      hide FileByte, InFile;
      var status;
      status, d := file.ReadInode(pos, len);
    }

    /** ext2_write_inode inside the file: a memcpy that needs no block. */
    method WriteAt(pos: nat, d: seq<byte>)
      requires Valid() && pos + |d| <= |bytes|
      modifies `bytes, file`disk, file`root, file.table
      ensures Valid() && bytes == Overlay(old(bytes), pos, d) && file.table.superFree == old(file.table.superFree)
      ensures file.Valid()
      ensures Undisturbed(file.N, old(file.disk), old(file.root), old(file.InUse()), file.disk, file.root, file.InUse())
    {
      hide InFile, FileByte, Overlay, NoHoles, Bare, Wrote, Present, Patched, Contents, Sound, Used, Missed, Elsewhere,
        SlotsKept, Writable, Cost, InnerPresent;
      ghost var disk, root := file.disk, file.root;
      PartHeld(file.N, disk, root, |bytes|, pos, |d|);
      HeldPresent(file.N, disk, root, pos, |d|);
      var status, written;
      ghost var n;
      status, written, n := file.WriteInode(d, pos);
      assert d[..n] == d;
      WroteContents(file.N, disk, root, file.disk, file.root, pos, d, |bytes|);
      PatchedAll(bytes, pos, d, Present(file.N, disk, root));
      NoHolesKept(file.N, disk, root, file.disk, file.root, |bytes|);
      BareKept(file.N, disk, root, file.disk, file.root, pos, d, |bytes|);
      bytes := Overlay(bytes, pos, d);
    }

    /** The pointer of the block behind the end can be looked for without going astray. */
    predicate Reaches()
      requires file.N > 0
      reads file
    {
      var n := FileBlock(file.N, file.size);
      n < Blocks(file.N) && Firm(file.N, file.disk, file.root, n)
    }

    /** The size grows by a block, which is a hole, or zeros. */
    method Grow()
      requires Valid() && Reaches()
      modifies `bytes, file`size
      ensures Grounded(|old(bytes)|) && bytes == old(bytes) + Zeros(BlockSize())
      ensures Fresh(|old(bytes)|)
    {
      hide FileByte, NoHoles, Firm, FileBlock, InBlock;
      ghost var k := |bytes|;
      NextBlock(file.N, k);
      forall o | k <= o < k + 4 * file.N
        ensures InFile(file.N, o)
      {
        InNewBlock(file.N, k, o);
      }
      assert Contents(file.N, file.disk, file.root, k + 4 * file.N) == bytes + Zeros(4 * file.N);
      file.size := file.size + BlockSize();
      bytes := bytes + Zeros(4 * file.N);
    }

    /** The file ends with a block from `k` on. */
    ghost predicate Fresh(k: nat)
      requires file.N > 0
      reads `bytes, file`disk, file`root
    {
      && |bytes| == k + 4 * file.N && InBlock(file.N, k) == 0 && FileBlock(file.N, k) < Blocks(file.N)
      && Firm(file.N, file.disk, file.root, FileBlock(file.N, k))
    }

    lemma FewTaken(k: nat)
      requires file.N > 0 && Fresh(k)
      ensures Cost(file.N, file.disk, file.root, FileBlock(file.N, k)) <= 3
    {
      hide Needed;
      FewNeeded(file.N, file.disk, file.root, FileBlock(file.N, k));
    }

    /** The pointer of the block from `k` on can be set. */
    predicate Settable(k: nat)
      requires file.N > 0
      reads file`disk, file`root
    {
      InnerPresent(file.N, file.disk, file.root, FileBlock(file.N, k))
    }

    /**
     ext2_write_inode into the block by which the file has grown. It takes what the
     block's pointer needs, and changes the file exactly if the pointer can be set and
     there are blocks enough.
     */
    method WriteNew(ghost k: nat, pos: nat, d: seq<byte>) returns (status: int)
      requires Grounded(k) && Fresh(k) && k <= pos && pos + |d| <= |bytes| && d != []
      modifies `bytes, file`disk, file`root, file.table
      ensures Fresh(k) && Settable(k) == old(Settable(k))
      ensures Paid(old(file.table.superFree), file.table.superFree, status,
                   old(Cost(file.N, file.disk, file.root, FileBlock(file.N, k))))
      ensures status == 0 && old(Settable(k)) ==>
        && Valid() && bytes == Overlay(old(bytes), pos, d)
        && Cost(file.N, file.disk, file.root, FileBlock(file.N, k)) == 0
      ensures status != 0 || !old(Settable(k)) ==> Grounded(k) && bytes == old(bytes)
      ensures file.Valid()
      ensures Undisturbed(file.N, old(file.disk), old(file.root), old(file.InUse()), file.disk, file.root, file.InUse())
    {
      hide InFile, FileByte, Overlay, NoHoles, Bare, Wrote, Present, Patched, Contents, Sound, Used, Missed, Elsewhere,
        SlotsKept, Writable, Needed, InnerPresent, Val, PathOf, FileBlock, InBlock, Firm, Blocks;
      ghost var N, disk, root, size := file.N, file.disk, file.root, |bytes|;
      NewWritable(N, disk, root, k, pos, |d|);
      var status', written;
      ghost var n;
      status', written, n := file.WriteInode(d, pos);
      status := status';
      WroteContents(N, disk, root, file.disk, file.root, pos, d[..n], size);
      NoHolesKept(N, disk, root, file.disk, file.root, k);
      BareKept(N, disk, root, file.disk, file.root, pos, d[..n], size);
      SamePresent(N, disk, root, file.disk, file.root, FileBlock(N, k));
      StillFirm(N, disk, root, file.disk, file.root, FileBlock(N, k));
      NewPresent(N, disk, root, k, pos, |d|);
      if status == 0 && InnerPresent(N, disk, root, FileBlock(N, k)) {
        assert d[..n] == d;
        PatchedAll(bytes, pos, d, Present(N, disk, root));
        NoHolesNext(N, file.disk, file.root, k);
        bytes := Overlay(bytes, pos, d);
      } else {
        assert status != 0 ==> d[..n] == [];
        PatchedNone(bytes, pos, d[..n], Present(N, disk, root));
      }
    }

    /** The blocks that a new block takes, with the pointer blocks on the way to its pointer. */
    ghost function GrowthCost(): nat
      requires file.N > 0
      reads file
    {
      Cost(file.N, file.disk, file.root, FileBlock(file.N, file.size))
    }

    /** A block by which the file grows is lost: its pointer cannot be set, or there are too few blocks. */
    ghost predicate Loses()
      requires file.N > 0
      reads file, file.table
    {
      !Settable(file.size) || file.table.superFree < GrowthCost()
    }

    /**
     The file grows by a block, with `head` at its start and `name` behind that. The
     name is written first. Either write can lose the block.
     */
    method AddBlock(name: seq<byte>, head: seq<byte>) returns (status: int, lost: bool)
      requires Valid() && Reaches() && |head| == 8 && 0 < |name| < 256
      modifies `bytes, file, file.table
      ensures lost <==> old(Loses())
      ensures |bytes| == |old(bytes)| + BlockSize() && 1024 <= BlockSize()
      ensures !lost ==> status == 0 && Valid()
      ensures !lost ==>
        bytes == Overlay(Overlay(old(bytes) + Zeros(BlockSize()), |old(bytes)| + 8, name), |old(bytes)|, head)
      ensures !lost ==> file.table.superFree == old(file.table.superFree) - old(GrowthCost())
      ensures lost ==> Tied() && bytes == old(bytes) + Zeros(BlockSize()) && status in {0, ENOSPC}
      ensures lost && !old(Settable(|bytes|)) && old(file.table.superFree) >= 6 ==> status == 0
      ensures lost && old(Settable(|bytes|)) ==> status == ENOSPC
      ensures lost ==> !Settable(|old(bytes)|) || file.table.superFree == 0
      ensures file.Valid()
      ensures Undisturbed(file.N, old(file.disk), old(file.root), old(file.InUse()), file.disk, file.root, file.InUse())
    {
      hide Valid, Grounded, Tied, Fresh, Reaches, Settable, Cost, FileBlock, Overlay, Undisturbed, file.Valid,
        file.InUse;
      Ready();
      var pos := file.size;
      var fine := Settable(pos);
      Grow();
      status := WriteBoth(|old(bytes)|, pos, name, head);
      lost := !fine || status != 0;
    }

    /** The two writes. */
    method WriteBoth(ghost k: nat, pos: nat, name: seq<byte>, head: seq<byte>) returns (status: int)
      requires Grounded(k) && Fresh(k) && pos == k && |head| == 8 && 0 < |name| < 256 && 1024 <= BlockSize()
      modifies `bytes, file`disk, file`root, file.table
      ensures |bytes| == |old(bytes)| && status in {0, ENOSPC}
      ensures old(Settable(k)) ==>
        (status == 0 <==> old(file.table.superFree) >= old(Cost(file.N, file.disk, file.root, FileBlock(file.N, k))))
      ensures old(Settable(k)) && status == 0 ==>
        && Valid() && bytes == Overlay(Overlay(old(bytes), pos + 8, name), pos, head)
        && old(file.table.superFree) ==
           file.table.superFree + old(Cost(file.N, file.disk, file.root, FileBlock(file.N, k)))
      ensures !old(Settable(k)) || status != 0 ==> Tied() && bytes == old(bytes)
      ensures !old(Settable(k)) && old(file.table.superFree) >= 6 ==> status == 0
      ensures Settable(k) == old(Settable(k)) && (status != 0 ==> file.table.superFree == 0)
      ensures file.Valid()
      ensures Undisturbed(file.N, old(file.disk), old(file.root), old(file.InUse()), file.disk, file.root, file.InUse())
    {
      hide Valid, Grounded, Tied, Fresh, Settable, Cost, FileBlock, Overlay, Undisturbed, file.Valid, file.InUse;
      Less(k);
      Extent(k);
      FewTaken(k);
      status := WriteNew(k, pos + 8, name);
      Less(k);
      Less(|bytes|);
      if status != 0 {
        return;
      }
      Extent(k);
      FewTaken(k);
      ghost var disk', root', used' := file.disk, file.root, file.InUse();
      status := WriteNew(k, pos, head);
      Less(k);
      UndisturbedTwice(file.N, old(file.disk), old(file.root), old(file.InUse()), disk', root', used',
                       file.disk, file.root, file.InUse());
    }
  }

  lemma PartHeld(N: nat, disk: seq<seq<byte>>, root: seq<nat>, k: nat, at: nat, len: nat)
    requires NoHoles(N, disk, root, 0, k) && at + len <= k
    ensures NoHoles(N, disk, root, at, len)
  {
  }

  lemma NewWritable(N: nat, disk: seq<seq<byte>>, root: seq<nat>, k: nat, at: nat, len: nat)
    requires N > 0 && InBlock(N, k) == 0 && FileBlock(N, k) < Blocks(N) && Firm(N, disk, root, FileBlock(N, k))
    requires k <= at && at + len <= k + 4 * N && len > 0
    ensures Writable(N, disk, root, at, len) && InBlock(N, at) + len <= 4 * N && FileBlock(N, at) == FileBlock(N, k)
    ensures InFile(N, k)
  {
    hide FileBlock, InBlock, Firm;
    forall o | at <= o < at + len
      ensures InFile(N, o) && Firm(N, disk, root, FileBlock(N, o))
    {
      InNewBlock(N, k, o);
    }
    InNewBlock(N, k, at);
  }

  lemma NewPresent(N: nat, disk: seq<seq<byte>>, root: seq<nat>, k: nat, at: nat, len: nat)
    requires N > 0 && InBlock(N, k) == 0 && FileBlock(N, k) < Blocks(N) && k <= at && at + len <= k + 4 * N
    ensures forall o :: at <= o < at + len ==>
      (o in Present(N, disk, root) <==> InnerPresent(N, disk, root, FileBlock(N, k)))
  {
    hide FileBlock, InBlock, InnerPresent;
    forall o | at <= o < at + len
      ensures o in Present(N, disk, root) <==> InnerPresent(N, disk, root, FileBlock(N, k))
    {
      InNewBlock(N, k, o);
    }
  }
}
