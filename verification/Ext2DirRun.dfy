/**
 Runs of link, unlink and lookup on one ext2 directory (fs/ext2/dir.c) against a
 map from names to inodes. Names are linked only when a lookup does not find them.
 A run stops where the source spoils the directory: at an unlink whose merged length
 does not fit 16 bits, or at a link that makes the directory grow by a block which
 is lost, because the volume is full or because the block's pointer cannot be set.
 */
module Ext2DirRun {
  import opened Bytes
  import opened Ext2Dir
  import opened Ext2DirFile
  import opened Options
  import File = Ext2File
  import Arith

  const EEXIST := 17

  /** No name but the empty one occurs twice. */
  ghost predicate Unique(es: seq<Entry>) {
    forall i, j :: 0 <= i < j < |es| && es[i].name != [] ==> es[i].name != es[j].name
  }

  /** The entries are the map `m`. */
  ghost predicate Names(es: seq<Entry>, m: map<seq<byte>, nat>) {
    forall q :: q != [] ==> Lookup(es, q) == if q in m then Some(m[q]) else None
  }

  lemma UniqueLinked(es: seq<Entry>, es': seq<Entry>, e: Entry)
    requires Linked(es, es', e) && Unique(es) && Lookup(es, e.name) == None && e.name != []
    ensures Unique(es')
  {
    LookupNone(es, e.name);
    if k :| 0 <= k <= |es| && es' == es[..k] + [e] + es[k..] {
      forall i, j | 0 <= i < j < |es'| && es'[i].name != []
        ensures es'[i].name != es'[j].name
      {
        assert i != k ==> es'[i] == es[if i < k then i else i - 1];
        assert j != k ==> es'[j] == es[if j < k then j else j - 1];
      }
    }
  }

  lemma NamesLinked(es: seq<Entry>, es': seq<Entry>, e: Entry, m: map<seq<byte>, nat>)
    requires Linked(es, es', e) && Names(es, m) && e.name !in m && e.name != []
    ensures Names(es', m[e.name := e.ino])
  {
    forall q: seq<byte> | q != []
      ensures Lookup(es', q) == if q in m[e.name := e.ino] then Some(m[e.name := e.ino][q]) else None
    {
      LinkedLookup(es, es', e, q);
    }
  }

  lemma NamesUnlinked(es: seq<Entry>, i: nat, m: map<seq<byte>, nat>)
    requires Names(es, m) && Unique(es) && i < |es| && es[i].name != []
    ensures es[i].name in m && Names(Without(es, i), m - {es[i].name}) && Unique(Without(es, i))
  {
    var name := es[i].name;
    LookupNone(es, name);
    LookupNone(es[i + 1..], name);
    forall q: seq<byte> | q != []
      ensures Lookup(Without(es, i), q) == if q in m - {name} then Some((m - {name})[q]) else None
    {
      LookupRemoved(es, i, q);
    }
    assert forall k :: 0 <= k < |es| - 1 ==> Without(es, i)[k] == es[if k < i then k else k + 1];
  }

  datatype Op = LinkOp(name: seq<byte>, ino: nat) | UnlinkOp(name: seq<byte>) | FindOp(name: seq<byte>)

  datatype Outcome = Outcome(status: int, found: Option<nat>)

  predicate Proper(op: Op) {
    IsName(op.name) && op.name != [] && (op.LinkOp? ==> 0 < op.ino < 0x1_0000_0000)
  }

  /** What a call does to the map. Unlinking the only record there is is refused. */
  ghost predicate MapStep(m: map<seq<byte>, nat>, op: Op, out: Outcome, m': map<seq<byte>, nat>) {
    match op
    case LinkOp(name, ino) =>
      if name in m then out.status == EEXIST && m' == m else out.status == 0 && m' == m[name := ino]
    case UnlinkOp(name) =>
      && (out.status == ENOENT <==> name !in m) && (out.status == EIO ==> |m| == 1)
      && m' == (if out.status == 0 then m - {name} else m) && out.status in {0, ENOENT, EIO}
    case FindOp(name) =>
      m' == m && out.found == if name in m then Some(m[name]) else None
  }

  /** The unlink spoils a directory with these records. */
  ghost predicate Tears(recs: seq<Rec>, name: seq<byte>) {
    && |recs| > 1
    && exists i :: 0 <= i < |recs| && recs[i].name == name && (forall j :: 0 <= j < i ==> recs[j].name != name)
                   && !MergeFits(recs, i)
  }

  /** The link has to make the directory grow. */
  ghost predicate Grows(recs: seq<Rec>, name: seq<byte>) {
    Lookup(Entries(recs), name) == None && Crowded(recs, Room(|name|))
  }

  /** The operation spoils the directory. */
  ghost predicate Spoils(d: Dir, op: Op)
    reads d, d.store, d.store.file, d.store.file.table
  {
    match op
    case LinkOp(name, _) => d.store.file.N > 0 && Grows(d.recs, name) && d.store.Reaches() && d.store.Loses()
    case UnlinkOp(name) => Tears(d.recs, name)
    case FindOp(_) => false
  }

  /**
   The directory ends with a block of zeros and cannot be read: the pointer of that
   block cannot be set, or the volume is full.
   */
  ghost predicate Ruined(d: Dir)
    reads d, d.store, d.store.file, d.store.file.table
  {
    && d.store.Tied() && d.store.BlockSize() <= |d.store.bytes|
    && (!d.store.Settable(|d.store.bytes| - d.store.BlockSize()) || d.store.file.table.superFree == 0)
    && forall recs' :: !Rep(d.store.bytes, recs')
  }

  /** The operation leads the source astray: nothing is said of it. */
  ghost predicate Strays(d: Dir, op: Op)
    reads d, d.store, d.store.file
  {
    op.LinkOp? && d.store.file.N > 0 && Grows(d.recs, op.name) && !d.store.Reaches()
  }

  /** Only the first record with a name decides. */
  lemma SpoilsAt(recs: seq<Rec>, name: seq<byte>, i: nat)
    requires |recs| > 1 && i < |recs| && recs[i].name == name && forall j :: 0 <= j < i ==> recs[j].name != name
    ensures Tears(recs, name) <==> !MergeFits(recs, i)
  {
  }

  /** A directory without the name, or with a single record, is not spoiled by an unlink. */
  lemma SpoilsNot(recs: seq<Rec>, name: seq<byte>)
    requires |recs| <= 1 || Lookup(Entries(recs), name) == None
    ensures !Tears(recs, name)
  {
    LookupNone(Entries(recs), name);
    assert forall i :: 0 <= i < |recs| ==> Entries(recs)[i].name == recs[i].name;
  }

  lemma OnlyName(es: seq<Entry>, m: map<seq<byte>, nat>, name: seq<byte>)
    requires Names(es, m) && |es| == 1 && name != [] && name in m && [] !in m
    ensures |m| == 1
  {
    assert Lookup(es, name).Some?;
    assert Lookup(es[1..], name) == None;
    forall q | q in m
      ensures q == name
    {
      assert Lookup(es, q).Some? && Lookup(es[1..], q) == None;
    }
    assert m.Keys == {name};
    assert |m.Keys| == 1;
  }

  /** One call; `sound` says that the directory can still be read. */
  method Step(d: Dir, op: Op, ghost m: map<seq<byte>, nat>)
    returns (out: Outcome, sound: bool, strays: bool, ghost m': map<seq<byte>, nat>)
    requires d.Valid() && Proper(op) && Unique(Entries(d.recs)) && Names(Entries(d.recs), m) && [] !in m
    modifies d, d.store`bytes, d.store.file, d.store.file.table
    ensures (sound <==> !old(Spoils(d, op))) && (strays <==> old(Strays(d, op)))
    ensures sound ==> d.Valid() && Unique(Entries(d.recs)) && Names(Entries(d.recs), m') && [] !in m'
    ensures sound && !strays ==> MapStep(m, op, out, m')
    ensures strays ==> d.recs == old(d.recs) && Strays(d, op)
    ensures !sound && op.LinkOp? ==> Ruined(d)
    ensures d.store.file.Valid()
    ensures d.Untouched(old(d.store.file.disk), old(d.store.file.root), old(d.store.file.InUse()))
  {
    hide Rep, Unique, Names, Entries, Lookup, Linked, Merged, Astray, MergeFits, Crowded, Tears, d.store.Valid,
      d.store.Tied, d.store.Loses, d.store.Reaches, d.store.file.Valid, d.store.Settable, d.store.GrowthCost, MapStep,
      d.Untouched, d.store.file.InUse;
    m', sound, strays := m, true, false;
    ghost var es := Entries(d.recs);
    NameOf(es, m, op.name);
    d.store.Ready();
    d.UntouchedStart();
    match op
    case LinkOp(name, ino) =>
      var r := d.FindDir(name);
      if r.Some? {
        out := Outcome(EEXIST, None);
        Taken(m, op, out);
      } else {
        var status, lost;
        status, lost, strays := d.Link(name, ino);
        out, sound := Outcome(status, None), !lost;
        if sound && !strays {
          UniqueLinked(es, Entries(d.recs), Entry(name, ino, 0));
          NamesLinked(es, Entries(d.recs), Entry(name, ino, 0), m);
          m' := m[name := ino];
          LinkedStep(m, op, out);
        }
      }
    case UnlinkOp(name) =>
      out, sound, m' := UnlinkStep(d, name, m);
    case FindOp(name) =>
      var r := d.FindDir(name);
      out := Outcome(0, r);
      FoundStep(m, op, out);
  }

  lemma Taken(m: map<seq<byte>, nat>, op: Op, out: Outcome)
    requires op.LinkOp? && op.name in m && out.status == EEXIST
    ensures MapStep(m, op, out, m)
  {
  }

  lemma LinkedStep(m: map<seq<byte>, nat>, op: Op, out: Outcome)
    requires op.LinkOp? && op.name !in m && out.status == 0
    ensures MapStep(m, op, out, m[op.name := op.ino])
  {
  }

  lemma FoundStep(m: map<seq<byte>, nat>, op: Op, out: Outcome)
    requires op.FindOp? && out.found == if op.name in m then Some(m[op.name]) else None
    ensures MapStep(m, op, out, m)
  {
  }

  method UnlinkStep(d: Dir, name: seq<byte>, ghost m: map<seq<byte>, nat>)
    returns (out: Outcome, sound: bool, ghost m': map<seq<byte>, nat>)
    requires d.Valid() && name != [] && Unique(Entries(d.recs)) && Names(Entries(d.recs), m) && [] !in m
    modifies d, d.store`bytes, d.store.file`disk, d.store.file`root, d.store.file.table
    ensures sound <==> !Tears(old(d.recs), name)
    ensures sound ==> d.Valid() && Unique(Entries(d.recs)) && Names(Entries(d.recs), m') && [] !in m'
    ensures sound ==> MapStep(m, UnlinkOp(name), out, m')
    ensures d.store.file.Valid()
    ensures d.Untouched(old(d.store.file.disk), old(d.store.file.root), old(d.store.file.InUse()))
  {
    hide Rep, Unique, Names, Entries, Lookup, Merged, Astray, MergeFits, Tears, d.store.Valid, d.store.Tied,
      d.store.file.Valid, d.Untouched, d.store.file.InUse;
    m' := m;
    ghost var es := Entries(d.recs);
    NameOf(es, m, name);
    var status, fits;
    ghost var i;
    status, fits, i := d.Unlink(name);
    if status == 0 {
      SpoilsAt(old(d.recs), name, i);
      EntryAt(old(d.recs), i);
      NamesUnlinked(es, i, m);
      m' := m - {name};
    } else {
      EntryCount(d.recs);
      SpoilsNot(d.recs, name);
      if status == EIO {
        OnlyName(es, m, name);
      }
    }
    out, sound := Outcome(status, None), fits;
  }

  lemma EntryAt(recs: seq<Rec>, i: nat)
    requires i < |recs|
    ensures i < |Entries(recs)| && Entries(recs)[i].name == recs[i].name
  {
  }

  lemma EntryCount(recs: seq<Rec>)
    ensures |Entries(recs)| == |recs|
  {
  }

  lemma NameOf(es: seq<Entry>, m: map<seq<byte>, nat>, q: seq<byte>)
    requires Names(es, m) && q != []
    ensures Lookup(es, q) == if q in m then Some(m[q]) else None
  {
  }

  ghost predicate MapRun(ops: seq<Op>, outs: seq<Outcome>, maps: seq<map<seq<byte>, nat>>) {
    && |outs| == |ops| && |maps| == |ops| + 1
    && forall i :: 0 <= i < |ops| ==> MapStep(maps[i], ops[i], outs[i], maps[i + 1])
  }

  lemma MapRunExtend(ops: seq<Op>, outs: seq<Outcome>,
                     maps: seq<map<seq<byte>, nat>>, i: nat, out: Outcome, m: map<seq<byte>, nat>)
    requires i < |ops| && MapRun(ops[..i], outs, maps) && MapStep(maps[i], ops[i], out, m)
    ensures MapRun(ops[..i + 1], outs + [out], maps + [m])
  {
  }

  /**
   Every run, from any directory without doubled names, is a run over the map, up to
   an operation that spoils the directory or leads the source astray; `last` are the
   records before it. No block of another file changes.
   */
  method Run(d: Dir, ops: seq<Op>, ghost m: map<seq<byte>, nat>)
    returns (done: nat, strays: bool, outs: seq<Outcome>, ghost maps: seq<map<seq<byte>, nat>>, ghost last: seq<Rec>)
    requires d.Valid() && Unique(Entries(d.recs)) && Names(Entries(d.recs), m) && [] !in m
    requires forall i :: 0 <= i < |ops| ==> Proper(ops[i])
    modifies d, d.store`bytes, d.store.file, d.store.file.table
    ensures done <= |ops| && MapRun(ops[..done], outs, maps) && maps[0] == m
    ensures Unique(Entries(last)) && Names(Entries(last), maps[done])
    ensures done == |ops| || strays ==> d.Valid() && last == d.recs
    ensures strays ==> done < |ops| && Strays(d, ops[done])
    ensures done < |ops| && !strays ==>
      match ops[done]
      case LinkOp(name, _) => Grows(last, name) && Ruined(d)
      case UnlinkOp(name) => Tears(last, name)
      case FindOp(_) => false
    ensures d.store.file.Valid()
    ensures d.Untouched(old(d.store.file.disk), old(d.store.file.root), old(d.store.file.InUse()))
  {
    hide MapStep, Proper, Unique, Names, Grows, Tears, Ruined, Rep, d.store.Valid, d.store.Reaches, d.store.Loses,
      d.store.file.Valid, d.store.file.InUse, Undisturbed;
    done, strays, outs, maps, last := 0, false, [], [m], d.recs;
    d.store.Ready();
    d.UntouchedStart();
    while done < |ops|
      invariant 0 <= done <= |ops| && d.Valid() && MapRun(ops[..done], outs, maps) && maps[0] == m && last == d.recs
      invariant Unique(Entries(d.recs)) && Names(Entries(d.recs), maps[done]) && [] !in maps[done] && !strays
      invariant d.store.file.Valid() && d.store.file.table.s.perGroup > 0
      invariant d.Untouched(old(d.store.file.disk), old(d.store.file.root), old(d.store.file.InUse()))
    {
      var out, sound;
      ghost var m';
      ghost var disk, root, used := d.store.file.disk, d.store.file.root, d.store.file.InUse();
      out, sound, strays, m' := Step(d, ops[done], maps[done]);
      d.StillUntouched(old(d.store.file.disk), old(d.store.file.root), old(d.store.file.InUse()), disk, root, used);
      if !sound || strays {
        return;
      }
      d.store.Ready();
      MapRunExtend(ops, outs, maps, done, out, m');
      outs, maps, last, done := outs + [out], maps + [m'], d.recs, done + 1;
    }
  }

  // ---------- a directory that gets spoiled ----------

  /** The number of names below. */
  const MANY := 4228250625

  /** A different name for each number, in four digits. */
  function Numbered(n: nat): (name: seq<byte>)
    requires n < MANY
    ensures IsName(name) && |name| == 4
  {
    [1 + n % 255, 1 + n / 255 % 255, 1 + n / 65025 % 255, 1 + n / 16581375]
  }

  lemma FourPlaces(n: nat)
    ensures n == n % 255 + 255 * (n / 255 % 255) + 65025 * (n / 65025 % 255) + 16581375 * (n / 16581375)
  {
    var q := n / 255;
    var r := q / 255;
    assert r == n / 65025;
    var t := r / 255;
    assert t == n / 16581375;
    assert n == 255 * q + n % 255 && q == 255 * r + q % 255 && r == 255 * t + r % 255;
  }

  lemma NumberedDiffer(n: nat, j: nat)
    requires n < MANY && j < MANY && n != j
    ensures Numbered(n) != Numbered(j)
  {
    FourPlaces(n);
    FourPlaces(j);
  }

  /** The names in the directory are different ones of the first `n`. */
  ghost predicate Numbers(es: seq<Entry>, n: nat)
    requires n <= MANY
  {
    && Unique(es) && (forall k :: 0 <= k < |es| ==> es[k].name != [])
    && forall k :: 0 <= k < |es| ==> exists j: nat :: j < n && es[k].name == Numbered(j)
  }

  lemma NumbersAbsent(es: seq<Entry>, n: nat)
    requires n < MANY && Numbers(es, n)
    ensures Lookup(es, Numbered(n)) == None
  {
    hide Numbered;
    forall k | 0 <= k < |es|
      ensures es[k].name != Numbered(n)
    {
      var j: nat :| j < n && es[k].name == Numbered(j);
      NumberedDiffer(n, j);
    }
    LookupNone(es, Numbered(n));
  }

  lemma NumbersLinked(es: seq<Entry>, es': seq<Entry>, n: nat)
    requires n < MANY && Numbers(es, n) && Linked(es, es', Entry(Numbered(n), 1, 0))
    ensures Numbers(es', n + 1) && |es'| == |es| + 1
  {
    NumbersAbsent(es, n);
    UniqueLinked(es, es', Entry(Numbered(n), 1, 0));
    var k :| 0 <= k <= |es| && es' == es[..k] + [Entry(Numbered(n), 1, 0)] + es[k..];
    forall i | 0 <= i < |es'|
      ensures exists j: nat :: j < n + 1 && es'[i].name == Numbered(j)
    {
      if i != k {
        var j: nat :| j < n && es[if i < k then i else i - 1].name == Numbered(j);
        assert es'[i].name == Numbered(j);
      } else {
        assert es'[i].name == Numbered(n);
      }
    }
  }

  /** Every record takes at least eight bytes. */
  lemma {:induction false} EightEach(b: seq<byte>, recs: seq<Rec>, k: nat)
    requires Rep(b, recs) && k < |recs|
    ensures recs[k].pos >= 8 * k && 8 * k + 8 <= |b|
  {
    assert RecOk(b, recs[k]);
    if k > 0 {
      EightEach(b, recs, k - 1);
      assert RecOk(b, recs[k - 1]);
    }
  }

  /** A directory of `c` blocks, with different names in it, and free blocks to grow to `blocks` and more. */
  ghost predicate Filled(d: Dir, n: nat, c: nat, blocks: nat, spare: nat)
    reads d, d.store, d.store.file, d.store.file.table
  {
    && d.Valid() && n <= MANY && |d.recs| == n && Numbers(Entries(d.recs), n)
    && c == File.FileBlock(d.store.file.N, |d.store.bytes|) <= blocks <= 12 + d.store.file.N
    && d.store.file.table.superFree >= 2 * (blocks - c) + spare
  }

  /** The bytes of so many blocks. */
  function Limit(d: Dir, blocks: nat): nat {
    Arith.Mul(4 * d.store.file.N, blocks)
  }

  /** So many names never run out, and a directory with them has its size. */
  lemma NamesLeft(d: Dir, n: nat, c: nat, blocks: nat, spare: nat)
    requires Filled(d, n, c, blocks, spare)
    ensures n < MANY && 8 * n <= Limit(d, blocks) && |d.store.bytes| == Limit(d, c)
  {
    hide Numbers, Rep;
    d.store.Ready();
    var N := d.store.file.N;
    d.store.Aligned();
    File.AtInverse(N, |d.store.bytes|);
    assert |d.store.bytes| == 4 * N * c;
    Arith.MulMonotone(c, blocks, 4 * N);
    Arith.MulMonotone(blocks, 16396, 4 * N);
    if n > 0 {
      EightEach(d.store.bytes, d.recs, n - 1);
    }
  }

  /** Below the doubly indirect range a directory can grow as long as there are two free blocks. */
  lemma CanGrow(d: Dir, c: nat)
    requires d.Valid() && c == File.FileBlock(d.store.file.N, |d.store.bytes|) < 12 + d.store.file.N
    ensures d.store.Reaches() && d.store.Settable(d.store.file.size) && d.store.GrowthCost() <= 2
    ensures d.store.file.table.superFree >= 2 ==> !d.store.Loses()
  {
    hide File.Needed, Rep, File.FileBlock;
    d.store.Ready();
    var N := d.store.file.N;
    FewNeeded(N, d.store.file.disk, d.store.file.root, c);
  }

  /** One link more in a directory that may grow. */
  method FillOne(d: Dir, n: nat, ghost c: nat, ghost blocks: nat, ghost spare: nat) returns (ghost c': nat)
    requires Filled(d, n, c, blocks, spare) && c < blocks && n < MANY
    modifies d, d.store`bytes, d.store.file, d.store.file.table
    ensures Filled(d, n + 1, c', blocks, spare)
    ensures d.store.file.Valid()
    ensures d.Untouched(old(d.store.file.disk), old(d.store.file.root), old(d.store.file.InUse()))
  {
    hide Rep, Numbers, Linked, d.store.Valid, d.store.Reaches, d.store.Settable, d.store.Loses, d.store.GrowthCost,
      File.FileBlock, File.InBlock, Crowded, Numbered, d.Untouched, d.store.file.Valid, d.store.Tied;
    CanGrow(d, c);
    d.store.Ready();
    d.store.Aligned();
    ghost var es, k := Entries(d.recs), |d.store.bytes|;
    var status, lost, strays := d.Link(Numbered(n), 1);
    NumbersLinked(es, Entries(d.recs), n);
    EntryCount(d.recs);
    d.store.Ready();
    NextBlock(d.store.file.N, k);
    c' := File.FileBlock(d.store.file.N, |d.store.bytes|);
  }

  /** Links until the directory has `blocks` blocks. */
  method FillTo(d: Dir, blocks: nat, ghost spare: nat) returns (n: nat)
    requires d.Valid() && d.recs == [] && blocks <= 12 + d.store.file.N
    requires d.store.file.table.superFree >= 2 * blocks + spare
    modifies d, d.store`bytes, d.store.file, d.store.file.table
    ensures Filled(d, n, blocks, blocks, spare)
    ensures d.store.file.Valid()
    ensures d.Untouched(old(d.store.file.disk), old(d.store.file.root), old(d.store.file.InUse()))
  {
    hide Rep, Numbers, d.store.Valid, File.FileBlock, Undisturbed, d.store.file.Valid, d.store.file.InUse, d.store.Tied,
      Limit, d.Valid, Entries, File.Used;
    n := 0;
    ghost var c := 0;
    FilledNone(d, blocks, spare);
    d.UntouchedStart();
    while File.FileBlock(d.store.file.N, d.store.file.size) < blocks
      invariant Filled(d, n, c, blocks, spare) && d.store.file.size == |d.store.bytes| && d.store.file.N > 0
      invariant d.store.file.Valid() && d.store.file.table.s.perGroup > 0
      invariant d.Untouched(old(d.store.file.disk), old(d.store.file.root), old(d.store.file.InUse()))
      decreases Limit(d, blocks) - 8 * n
    {
      NamesLeft(d, n, c, blocks, spare);
      FilledReady(d, n, c, blocks, spare);
      ghost var disk, root, used := d.store.file.disk, d.store.file.root, d.store.file.InUse();
      c := FillOne(d, n, c, blocks, spare);
      n := n + 1;
      NamesLeft(d, n, c, blocks, spare);
      FilledReady(d, n, c, blocks, spare);
      d.StillUntouched(old(d.store.file.disk), old(d.store.file.root), old(d.store.file.InUse()), disk, root, used);
    }
  }

  lemma FilledNone(d: Dir, blocks: nat, spare: nat)
    requires d.Valid() && d.recs == [] && blocks <= 12 + d.store.file.N
    requires d.store.file.table.superFree >= 2 * blocks + spare
    ensures Filled(d, 0, 0, blocks, spare) && d.store.file.size == |d.store.bytes| && d.store.file.N > 0
    ensures d.store.file.Valid() && d.store.file.table.s.perGroup > 0
  {
    hide d.store.Valid, Rep;
    d.store.Ready();
    d.AtEnd(0);
    NoBlock(d.store.file.N);
    NumbersNone(Entries(d.recs));
  }

  lemma FilledReady(d: Dir, n: nat, c: nat, blocks: nat, spare: nat)
    requires Filled(d, n, c, blocks, spare)
    ensures d.store.file.size == |d.store.bytes| && d.store.file.N > 0
    ensures d.store.file.Valid() && d.store.file.table.s.perGroup > 0
  {
    hide Rep, Numbers, d.store.Valid;
    d.store.Ready();
  }

  lemma NoBlock(N: nat)
    requires N > 0
    ensures File.FileBlock(N, 0) == 0
  {
    Arith.DivUnique(4 * N, 0, 0);
  }

  lemma NumbersNone(es: seq<Entry>)
    requires es == []
    ensures Numbers(es, 0)
  {
  }

  /**
   In a directory that has grown to 64 KiB, unlinking the second record over and over
   ends with an unlink that reports success and leaves a file that does not read as
   the directory it should be. It happens for every block size.
   */
  method Spoil(d: Dir) returns (status: int, ghost before: seq<Rec>)
    requires d.Valid() && d.recs == [] && d.store.file.table.superFree >= 128
    modifies d, d.store`bytes, d.store.file, d.store.file.table
    ensures status == 0 && |before| > 1 && !MergeFits(before, 1) && d.store.Tied()
    ensures !Rep(d.store.bytes, Merged(before, 1)) && Astray(d.store.bytes, before, 1)
  {
    hide Rep, Linked, Merged, Astray, MergeFits, d.store.Valid, d.store.Tied, d.store.file.Valid, d.Untouched, Numbered;
    d.store.Ready();
    var n := FillTo(d, 64, 0);
    NamesLeft(d, n, 64, 64, 0);
    d.store.Ready();
    EntryNames(d.recs);
    d.AtEnd(0);
    while true
      invariant d.Valid() && d.recs != [] && |d.store.bytes| >= 0x1_0000 && Unique(Entries(d.recs))
      invariant forall k :: 0 <= k < |d.recs| ==> d.recs[k].name != []
      decreases |d.recs|
    {
      NotAlone(d.store.bytes, d.recs);
      d.AtEnd(0);
      var h := d.ReadHeader(0, 0);
      var h' := d.ReadHeader(h.recLen, 1);
      var name := d.ReadName(h.recLen, h'.nameLen, 1);
      before := d.recs;
      ghost var i;
      var fits;
      LookupNone(Entries(d.recs), name);
      assert Entries(d.recs)[1].name == name && Entries(d.recs)[0].name != name;
      status, fits, i := d.Unlink(name);
      assert i == 1;
      d.store.Ready();
      if !fits {
        return;
      }
      WithoutUnique(Entries(before), Entries(d.recs), 1);
      EntryNames(d.recs);
    }
  }

  lemma EntryNames(recs: seq<Rec>)
    ensures |Entries(recs)| == |recs| && forall k :: 0 <= k < |recs| ==> Entries(recs)[k].name == recs[k].name
  {
  }

  /**
   A directory whose inode has no doubly indirect blocks outgrows its direct and
   singly indirect ones: a link that has to make it grow reports success, and the
   directory cannot be read any more. It happens for every block size.
   */
  method Outgrow(d: Dir) returns (status: int, ghost before: seq<Rec>, ghost was: seq<byte>)
    requires d.Valid() && d.recs == [] && d.store.file.table.superFree >= 2 * (12 + d.store.file.N) + 6
    requires d.store.file.N > 0
      && !File.InnerPresent(d.store.file.N, d.store.file.disk, d.store.file.root, 12 + d.store.file.N)
    modifies d, d.store`bytes, d.store.file, d.store.file.table
    ensures status == 0 && Rep(was, before) && Unique(Entries(before))
    ensures d.store.Tied() && d.store.bytes ==
      was + Zeros(d.store.BlockSize()) && forall recs' :: !Rep(d.store.bytes, recs')
  {
    hide Rep, Numbers, Linked, d.store.Valid, d.store.Reaches, d.store.GrowthCost, File.InnerPresent, File.FileBlock,
      Crowded, Numbered, d.Untouched, d.store.file.Valid, d.store.file.InUse, d.store.Tied, Unique, Limit, Entries,
      File.Used;
    var blocks := 12 + d.store.file.N;
    d.store.Ready();
    var n := FillTo(d, blocks, 6);
    d.store.Ready();
    BeyondSingly(d, old(d.store.file.disk), old(d.store.file.root), old(d.store.file.InUse()));
    while true
      invariant Filled(d, n, blocks, blocks, 6) && d.store.file.size == |d.store.bytes| && d.store.file.N > 0
      invariant !d.store.Settable(|d.store.bytes|) && d.store.Reaches()
      decreases Limit(d, blocks) - 8 * n
    {
      NamesLeft(d, n, blocks, blocks, 6);
      before, was := d.recs, d.store.bytes;
      NumbersUnique(Entries(d.recs), n);
      d.store.Ready();
      ghost var disk, root, used := d.store.file.disk, d.store.file.root, d.store.file.InUse();
      var lost, strays;
      status, lost, strays := d.Link(Numbered(n), 1);
      if lost {
        return;
      }
      NumbersLinked(Entries(before), Entries(d.recs), n);
      EntryCount(d.recs);
      d.store.Ready();
      BeyondSingly(d, disk, root, used);
      n := n + 1;
    }
  }

  lemma NumbersUnique(es: seq<Entry>, n: nat)
    requires n <= MANY && Numbers(es, n)
    ensures Unique(es)
  {
  }

  /** The first block of the doubly indirect range: its pointer can be looked for, and set if it could be before. */
  lemma BeyondSingly(d: Dir, disk: seq<seq<byte>>, root: seq<nat>, used: iset<nat>)
    requires d.Valid() && d.store.file.N > 0 && d.store.file.table.s.perGroup > 0 && d.Untouched(disk, root, used)
    requires File.FileBlock(d.store.file.N, |d.store.bytes|) == 12 + d.store.file.N
    ensures d.store.Reaches()
    ensures d.store.Settable(|d.store.bytes|) <==> File.InnerPresent(d.store.file.N, disk, root, 12 + d.store.file.N)
  {
    hide File.InnerPresent, File.FileBlock, Undisturbed, Rep, d.store.Valid, d.store.file.Valid, d.store.Tied;
    d.store.Ready();
    var N := d.store.file.N;
    Arith.MulMonotone(1, N, N);
    UndisturbedPresent(N, disk, root, used, d.store.file.disk, d.store.file.root, d.store.file.InUse(), 12 + N);
  }

  lemma WithoutUnique(es: seq<Entry>, es': seq<Entry>, i: nat)
    requires i < |es| && es' == Without(es, i) && Unique(es) && forall k :: 0 <= k < |es| ==> es[k].name != []
    ensures Unique(es') && |es'| == |es| - 1 && forall k :: 0 <= k < |es'| ==> es'[k].name != []
  {
    assert forall k :: 0 <= k < |es'| ==> es'[k] == es[if k < i then k else k + 1];
  }

  lemma NotAlone(b: seq<byte>, recs: seq<Rec>)
    requires Rep(b, recs) && recs != [] && |b| >= 0x1_0000
    ensures |recs| > 1
  {
    assert RecOk(b, recs[0]);
  }
}
