/**
 ext2 directories (fs/ext2/dir.c): a chain of variable-length records in the
 bytes of the directory's file, changed in place by link and unlink.
 */
module Ext2Dir {
  import opened Bytes
  import opened Options
  import opened Ext2DirFile
  import File = Ext2File

  const EIO := 5
  const ENOENT := 2

  // ---------- record headers ----------

  /** struct ext2_dirent: a 32-bit inode number, a 16-bit record length, a name length and a file type. */
  datatype Header = Header(ino: nat, recLen: nat, nameLen: nat, kind: nat)

  predicate Fits(h: Header) {
    h.ino < 0x1_0000_0000 && h.recLen < 0x1_0000 && h.nameLen < 256 && h.kind < 256
  }

  function Encode(h: Header): (d: seq<byte>)
    requires Fits(h)
    ensures |d| == 8
  {
    [h.ino % 256, h.ino / 256 % 256, h.ino / 65536 % 256, h.ino / 16777216,
     h.recLen % 256, h.recLen / 256, h.nameLen, h.kind]
  }

  function GetHeader(b: seq<byte>, pos: nat): (h: Header)
    requires pos + 8 <= |b|
    ensures Fits(h)
  {
    Header((b[pos] as int) + 256 * (b[pos + 1] as int) + 65536 * (b[pos + 2] as int) + 16777216 * (b[pos + 3] as int),
           (b[pos + 4] as int) + 256 * (b[pos + 5] as int), b[pos + 6], b[pos + 7])
  }

  lemma EncodeDecode(b: seq<byte>, pos: nat, h: Header)
    requires pos + 8 <= |b| && Fits(h) && b[pos..pos + 8] == Encode(h)
    ensures GetHeader(b, pos) == h
  {
    var d := b[pos..pos + 8];
    assert b[pos] == d[0] && b[pos + 1] == d[1] && b[pos + 2] == d[2] && b[pos + 3] == d[3];
    assert b[pos + 4] == d[4] && b[pos + 5] == d[5] && b[pos + 6] == d[6] && b[pos + 7] == d[7];
    FourDigits(h.ino);
  }

  /** Where a record header keeps what, in any bytes. */
  lemma HeaderLayout(b: seq<byte>, pos: nat)
    requires pos + 8 <= |b|
    ensures var h := GetHeader(b, pos);
      && h.ino == Little(b[pos..pos + 4]) && h.recLen == Little(b[pos + 4..pos + 6])
      && h.nameLen == b[pos + 6] && h.kind == b[pos + 7]
  {
    LittleFour(b[pos..pos + 4]);
    LittleTwo(b[pos + 4..pos + 6]);
  }

  /** The first record of a root directory: the entry "." of inode 2, twelve bytes long. */
  lemma RootDot()
    ensures GetHeader([2, 0, 0, 0, 12, 0, 1, 2], 0) == Header(2, 12, 1, 2)
    ensures Encode(Header(2, 12, 1, 2)) == [2, 0, 0, 0, 12, 0, 1, 2]
  {
  }

  lemma FourDigits(v: nat)
    ensures v == v % 256 + 256 * (v / 256 % 256) + 65536 * (v / 65536 % 256) + 16777216 * (v / 16777216)
  {
    var q := v / 256;
    var r := q / 256;
    assert r == v / 65536;
    var t := r / 256;
    assert t == v / 16777216;
    assert v == 256 * q + v % 256 && q == 256 * r + q % 256 && r == 256 * t + r % 256;
  }

  // ---------- the chain of records ----------

  /** A record: where it is, how long, and the entry it holds. */
  datatype Rec = Rec(pos: nat, len: nat, ino: nat, name: seq<byte>, kind: nat)

  /** The space a record with this name needs, rounded up to a multiple of four. */
  function Room(n: nat): (r: nat)
    ensures 8 + n <= r < 8 + n + 4 && r % 4 == 0
  {
    (8 + n + 3) / 4 * 4
  }

  /** A name fit for a directory entry. */
  predicate IsName(name: seq<byte>) {
    |name| < 256 && forall i :: 0 <= i < |name| ==> name[i] != 0
  }

  /** The record lies in the file, is large enough for its name, and its fields fit the header. */
  predicate Sized(r: Rec, size: nat) {
    && r.pos + r.len <= size && Room(|r.name|) <= r.len < 0x1_0000
    && IsName(r.name) && r.ino < 0x1_0000_0000 && r.kind < 256
    && (r.ino == 0 ==> r.name == [])
  }

  function HeaderOf(r: Rec): Header {
    Header(r.ino, r.len, |r.name|, r.kind)
  }

  /** The bytes at the record's place spell it out. */
  ghost predicate RecOk(b: seq<byte>, r: Rec) {
    && Sized(r, |b|)
    && GetHeader(b, r.pos) == HeaderOf(r)
    && b[r.pos + 8..r.pos + 8 + |r.name|] == r.name
  }

  /** The directory file after the record's header has been written. */
  function WriteHeader(b: seq<byte>, r: Rec): (b': seq<byte>)
    requires Sized(r, |b|)
    ensures |b'| == |b|
  {
    Overlay(b, r.pos, Encode(HeaderOf(r)))
  }

  /** The directory file after the record's name and then its header have been written. */
  function WriteRec(b: seq<byte>, r: Rec): (b': seq<byte>)
    requires Sized(r, |b|)
    ensures |b'| == |b|
  {
    WriteHeader(Overlay(b, r.pos + 8, r.name), r)
  }

  /** The records follow each other and fill [0, size). */
  ghost predicate Chain(recs: seq<Rec>, size: nat) {
    && (recs == [] ==> size == 0)
    && (recs != [] ==> recs[0].pos == 0 && recs[|recs| - 1].pos + recs[|recs| - 1].len == size)
    && (forall i :: 0 < i < |recs| ==> recs[i].pos == recs[i - 1].pos + recs[i - 1].len)
  }

  ghost predicate Rep(b: seq<byte>, recs: seq<Rec>) {
    Chain(recs, |b|) && forall i :: 0 <= i < |recs| ==> RecOk(b, recs[i])
  }

  lemma {:induction false} ChainOrder(recs: seq<Rec>, size: nat, i: nat, j: nat)
    requires Chain(recs, size) && i < j < |recs|
    ensures recs[i].pos + recs[i].len <= recs[j].pos
    decreases j
  {
    if i < j - 1 {
      ChainOrder(recs, size, i, j - 1);
    }
  }

  ghost predicate Agree(b: seq<byte>, b': seq<byte>, lo: nat, hi: nat) {
    hi <= |b| && hi <= |b'| && forall k :: lo <= k < hi ==> b'[k] == b[k]
  }

  /** A record depends only on the bytes of its header and name. */
  lemma RecFrame(b: seq<byte>, b': seq<byte>, r: Rec)
    requires RecOk(b, r) && Agree(b, b', r.pos, r.pos + 8 + |r.name|) && r.pos + r.len <= |b'|
    ensures RecOk(b', r)
  {
  }

  /** Changing a record's header in place, to another length that still fits its name. */
  lemma HeaderWritten(b: seq<byte>, r: Rec, len: nat)
    requires RecOk(b, r) && Sized(r.(len := len), |b|)
    ensures var r' := r.(len := len);
            && RecOk(WriteHeader(b, r'), r') && Agree(b, WriteHeader(b, r'), 0, r.pos)
            && Agree(b, WriteHeader(b, r'), r.pos + 8, |b|)
  {
    var r' := r.(len := len);
    var b' := WriteHeader(b, r');
    EncodeDecode(b', r.pos, HeaderOf(r'));
    assert b'[r.pos + 8..r.pos + 8 + |r.name|] == b[r.pos + 8..r.pos + 8 + |r.name|];
  }

  /** Writing a whole new record. */
  lemma RecWritten(b: seq<byte>, r: Rec)
    requires Sized(r, |b|)
    ensures RecOk(WriteRec(b, r), r) && Agree(b, WriteRec(b, r), 0, r.pos)
    ensures Agree(b, WriteRec(b, r), r.pos + r.len, |b|)
  {
    var b1 := Overlay(b, r.pos + 8, r.name);
    var b' := WriteRec(b, r);
    EncodeDecode(b', r.pos, HeaderOf(r));
    assert b'[r.pos + 8..r.pos + 8 + |r.name|] == b1[r.pos + 8..r.pos + 8 + |r.name|];
  }

  // ---------- entries and lookup ----------

  /** What a directory means: names and inode numbers, in order. */
  datatype Entry = Entry(name: seq<byte>, ino: nat, kind: nat)

  function Entries(recs: seq<Rec>): (es: seq<Entry>)
    ensures |es| == |recs|
    ensures forall i :: 0 <= i < |recs| ==> es[i] == Entry(recs[i].name, recs[i].ino, recs[i].kind)
  {
    seq(|recs|, i requires 0 <= i < |recs| => Entry(recs[i].name, recs[i].ino, recs[i].kind))
  }

  /** The inode of the first entry with this name. */
  function Lookup(es: seq<Entry>, name: seq<byte>): Option<nat> {
    if es == [] then None
    else if es[0].name == name then Some(es[0].ino)
    else Lookup(es[1..], name)
  }

  lemma {:induction false} LookupConcat(es: seq<Entry>, fs: seq<Entry>, q: seq<byte>)
    ensures Lookup(es + fs, q) == if Lookup(es, q).Some? then Lookup(es, q) else Lookup(fs, q)
  {
    if es == [] {
      assert es + fs == fs;
    } else {
      LookupConcat(es[1..], fs, q);
      assert (es + fs)[1..] == es[1..] + fs;
    }
  }

  /** Inserting an entry for an absent name adds that lookup and changes no other. */
  lemma LookupInserted(es: seq<Entry>, k: nat, e: Entry, q: seq<byte>)
    requires k <= |es| && Lookup(es, e.name) == None
    ensures Lookup(es[..k] + [e] + es[k..], q) == if q == e.name then Some(e.ino) else Lookup(es, q)
  {
    assert es == es[..k] + es[k..];
    LookupConcat(es[..k], es[k..], q);
    LookupConcat(es[..k] + [e], es[k..], q);
    LookupConcat(es[..k], [e], q);
    LookupConcat(es[..k], es[k..], e.name);
  }

  /** So does reusing a nameless record. */
  lemma LookupReused(es: seq<Entry>, k: nat, e: Entry, q: seq<byte>)
    requires k < |es| && es[k].name == [] && Lookup(es, e.name) == None && q != []
    ensures Lookup(es[k := e], q) == if q == e.name then Some(e.ino) else Lookup(es, q)
  {
    var rest := es[k + 1..];
    assert es == es[..k] + [es[k]] + rest;
    assert es[k := e] == es[..k] + [e] + rest;
    LookupConcat(es[..k] + [es[k]], rest, q);
    LookupConcat(es[..k], [es[k]], q);
    LookupConcat(es[..k] + [e], rest, q);
    LookupConcat(es[..k], [e], q);
    LookupConcat(es[..k] + [es[k]], rest, e.name);
    LookupConcat(es[..k], [es[k]], e.name);
  }

  /** Removing the first entry with a name uncovers the next one with that name and changes no other lookup. */
  lemma LookupRemoved(es: seq<Entry>, k: nat, q: seq<byte>)
    requires k < |es| && forall i :: 0 <= i < k ==> es[i].name != es[k].name
    ensures Lookup(es[..k] + es[k + 1..], q) == if q == es[k].name then Lookup(es[k + 1..], q) else Lookup(es, q)
  {
    var rest := es[k + 1..];
    assert es == es[..k] + [es[k]] + rest;
    LookupConcat(es[..k] + [es[k]], rest, q);
    LookupConcat(es[..k], [es[k]], q);
    LookupConcat(es[..k], rest, q);
    LookupNone(es[..k], es[k].name);
  }

  lemma {:induction false} LookupNone(es: seq<Entry>, name: seq<byte>)
    ensures Lookup(es, name) == None <==> forall i :: 0 <= i < |es| ==> es[i].name != name
  {
    if es != [] {
      LookupNone(es[1..], name);
      assert forall i :: 0 < i < |es| ==> es[i] == es[1..][i - 1];
    }
  }

  // ---------- what link and unlink do to the chain ----------

  /** Changes inside one record's span leave the other records intact. */
  lemma OthersKept(b: seq<byte>, b': seq<byte>, recs: seq<Rec>, i: nat, j: nat)
    requires Rep(b, recs) && i < |recs| && j < |recs| && |b'| >= |b|
    requires Agree(b, b', 0, recs[i].pos) && Agree(b, b', recs[i].pos + recs[i].len, |b|)
    ensures j != i ==> RecOk(b', recs[j])
  {
    if i < j {
      ChainOrder(recs, |b|, i, j);
      RecFrame(b, b', recs[j]);
    } else if j < i {
      ChainOrder(recs, |b|, j, i);
      RecFrame(b, b', recs[j]);
    }
  }

  /** A nameless record is taken over. */
  lemma ReuseRep(b: seq<byte>, recs: seq<Rec>, i: nat, r: Rec)
    requires Rep(b, recs) && i < |recs| && r.pos == recs[i].pos && r.len == recs[i].len && Sized(r, |b|)
    ensures Rep(WriteRec(b, r), recs[i := r])
  {
    hide WriteRec, RecOk, Agree;
    RecWritten(b, r);
    var b', recs' := WriteRec(b, r), recs[i := r];
    forall j | 0 <= j < |recs'|
      ensures RecOk(b', recs'[j])
    {
      OthersKept(b, b', recs, i, j);
    }
  }

  /** The part of a record behind its own name, as a record for another name. */
  function Slack(r: Rec, ino: nat, name: seq<byte>): Rec
    requires Room(|r.name|) <= r.len
  {
    Rec(r.pos + Room(|r.name|), r.len - Room(|r.name|), ino, name, 0)
  }

  function Shortened(r: Rec): Rec {
    r.(len := Room(|r.name|))
  }

  /** Splitting one record in two. */
  lemma SplitOne(b: seq<byte>, r: Rec, n: Rec)
    requires RecOk(b, r) && n == Slack(r, n.ino, n.name) && Sized(n, |b|)
    ensures Sized(Shortened(r), |b|)
    ensures var b' := WriteHeader(WriteRec(b, n), Shortened(r));
            RecOk(b', Shortened(r)) && RecOk(b', n) && Agree(b, b', 0, r.pos) && Agree(b, b', r.pos + r.len, |b|)
  {
    hide WriteRec, WriteHeader, GetHeader;
    RecWritten(b, n);
    RecFrame(b, WriteRec(b, n), r);
    HeaderWritten(WriteRec(b, n), r, Room(|r.name|));
    RecFrame(WriteRec(b, n), WriteHeader(WriteRec(b, n), Shortened(r)), n);
  }

  /** The slack behind a record becomes a record of its own. */
  lemma SplitChain(recs: seq<Rec>, size: nat, i: nat, n: Rec)
    requires Chain(recs, size) && i < |recs| && n.pos == recs[i].pos + Shortened(recs[i]).len
    requires n.len == recs[i].len - Shortened(recs[i]).len
    ensures Chain(recs[..i] + [Shortened(recs[i]), n] + recs[i + 1..], size)
  {
    hide Shortened;
    var recs' := recs[..i] + [Shortened(recs[i]), n] + recs[i + 1..];
    ShortenedStart(recs[i]);
    assert |recs'| == |recs| + 1 && recs'[0].pos == 0;
    forall j | 0 < j < |recs'|
      ensures recs'[j].pos == recs'[j - 1].pos + recs'[j - 1].len
    {
      if j <= i {
        assert recs'[j].pos == recs[j].pos && recs'[j - 1] == recs[j - 1];
      } else if j == i + 1 {
        assert recs'[j] == n && recs'[j - 1] == Shortened(recs[i]);
      } else {
        assert recs'[j] == recs[j - 1] && recs'[j - 1] == (if j == i + 2 then n else recs[j - 2]);
      }
    }
    assert recs'[|recs|] == if i == |recs| - 1 then n else recs[|recs| - 1];
  }

  lemma ShortenedStart(r: Rec)
    ensures Shortened(r).pos == r.pos
  {
  }

  lemma SplitRep(b: seq<byte>, recs: seq<Rec>, i: nat, n: Rec)
    requires Rep(b, recs) && i < |recs| && Room(|recs[i].name|) <= recs[i].len
    requires n == Slack(recs[i], n.ino, n.name) && Sized(n, |b|)
    ensures Sized(Shortened(recs[i]), |b|)
    ensures Rep(WriteHeader(WriteRec(b, n), Shortened(recs[i])), recs[..i] + [Shortened(recs[i]), n] + recs[i + 1..])
  {
    hide RecOk, WriteRec, WriteHeader, Agree;
    assert RecOk(b, recs[i]);
    SplitOne(b, recs[i], n);
    var recs' := recs[..i] + [Shortened(recs[i]), n] + recs[i + 1..];
    var b' := WriteHeader(WriteRec(b, n), Shortened(recs[i]));
    SplitChain(recs, |b|, i, n);
    hide Chain;
    forall j | 0 <= j < |recs'|
      ensures RecOk(b', recs'[j])
    {
      if j < i {
        OthersKept(b, b', recs, i, j);
      } else if j > i + 1 {
        OthersKept(b, b', recs, i, j - 1);
      }
    }
  }

  /** A new block at the end of the directory. */
  lemma AppendRep(b: seq<byte>, recs: seq<Rec>, r: Rec)
    requires Rep(b, recs) && r.pos == |b| && Sized(r, |b| + r.len)
    ensures Rep(WriteRec(b + Zeros(r.len), r), recs + [r])
  {
    hide WriteRec;
    RecWritten(b + Zeros(r.len), r);
    var b' := WriteRec(b + Zeros(r.len), r);
    forall j | 0 <= j < |recs + [r]|
      ensures RecOk(b', (recs + [r])[j])
    {
      if j < |recs| {
        if j < |recs| - 1 {
          ChainOrder(recs, |b|, j, |recs| - 1);
        }
        RecFrame(b, b', recs[j]);
      }
    }
  }

  /** Two neighbouring records give way to one that covers both. */
  function Fused(recs: seq<Rec>, i: nat, r: Rec): seq<Rec>
    requires 0 < i < |recs|
  {
    recs[..i - 1] + [r] + recs[i + 1..]
  }

  lemma FusedChain(recs: seq<Rec>, size: nat, i: nat, r: Rec)
    requires Chain(recs, size) && 0 < i < |recs|
    requires r.pos == recs[i - 1].pos && r.len == recs[i - 1].len + recs[i].len
    ensures Chain(Fused(recs, i, r), size)
  {
  }

  lemma FusedRep(b: seq<byte>, b': seq<byte>, recs: seq<Rec>, i: nat, r: Rec)
    requires Rep(b, recs) && 0 < i < |recs| && |b'| == |b|
    requires r.pos == recs[i - 1].pos && r.len == recs[i - 1].len + recs[i].len && RecOk(b', r)
    requires Agree(b, b', 0, r.pos) && Agree(b, b', r.pos + r.len, |b|)
    ensures Rep(b', Fused(recs, i, r))
  {
    hide Chain, RecOk;
    FusedChain(recs, |b|, i, r);
    var recs' := Fused(recs, i, r);
    forall j | 0 <= j < |recs'|
      ensures RecOk(b', recs'[j])
    {
      if j < i - 1 {
        BeforeKept(b, b', recs, i - 1, j);
      } else if j > i - 1 {
        BehindKept(b, b', recs, i, j + 1);
      }
    }
  }

  lemma BeforeKept(b: seq<byte>, b': seq<byte>, recs: seq<Rec>, i: nat, j: nat)
    requires Rep(b, recs) && j < i < |recs| && |b'| == |b| && Agree(b, b', 0, recs[i].pos)
    ensures RecOk(b', recs[j])
  {
    ChainOrder(recs, |b|, j, i);
    RecFrame(b, b', recs[j]);
  }

  lemma BehindKept(b: seq<byte>, b': seq<byte>, recs: seq<Rec>, i: nat, j: nat)
    requires Rep(b, recs) && 0 < i < j < |recs| && |b'| == |b|
    requires Agree(b, b', recs[i - 1].pos + (recs[i - 1].len + recs[i].len), |b|)
    ensures RecOk(b', recs[j])
  {
    ChainOrder(recs, |b|, i, j);
    RecFrame(b, b', recs[j]);
  }

  /** A record swallows the one behind it. */
  function Grown(recs: seq<Rec>, i: nat): Rec
    requires 0 < i < |recs|
  {
    recs[i - 1].(len := recs[i - 1].len + recs[i].len)
  }

  lemma GrowRep(b: seq<byte>, recs: seq<Rec>, i: nat)
    requires Rep(b, recs) && 0 < i < |recs| && recs[i - 1].len + recs[i].len < 0x1_0000
    ensures Sized(Grown(recs, i), |b|)
    ensures Rep(WriteHeader(b, Grown(recs, i)), Fused(recs, i, Grown(recs, i)))
  {
    hide WriteHeader, GetHeader;
    assert RecOk(b, recs[i]) && RecOk(b, recs[i - 1]);
    HeaderWritten(b, recs[i - 1], Grown(recs, i).len);
    FusedRep(b, WriteHeader(b, Grown(recs, i)), recs, i, Grown(recs, i));
  }

  /** The second record moves into the place of the first. */
  function Moved(recs: seq<Rec>): Rec
    requires |recs| > 1
  {
    Rec(0, recs[0].len + recs[1].len, recs[1].ino, recs[1].name, recs[1].kind)
  }

  lemma MoveRep(b: seq<byte>, recs: seq<Rec>)
    requires Rep(b, recs) && |recs| > 1 && recs[0].len + recs[1].len < 0x1_0000
    ensures Sized(Moved(recs), |b|)
    ensures Rep(WriteRec(b, Moved(recs)), Fused(recs, 1, Moved(recs)))
  {
    hide WriteRec, GetHeader;
    assert RecOk(b, recs[0]) && RecOk(b, recs[1]);
    RecWritten(b, Moved(recs));
    FusedRep(b, WriteRec(b, Moved(recs)), recs, 1, Moved(recs));
  }

  /** One entry more: put in somewhere, or into the place of a nameless one. */
  ghost predicate Linked(es: seq<Entry>, es': seq<Entry>, e: Entry) {
    || (exists k :: 0 <= k <= |es| && es' == es[..k] + [e] + es[k..])
    || (exists k :: 0 <= k < |es| && es[k].name == [] && es' == es[k := e])
  }

  /** Linking an absent name adds exactly that lookup. */
  lemma LinkedLookup(es: seq<Entry>, es': seq<Entry>, e: Entry, q: seq<byte>)
    requires Linked(es, es', e) && Lookup(es, e.name) == None && q != []
    ensures Lookup(es', q) == if q == e.name then Some(e.ino) else Lookup(es, q)
  {
    if k :| 0 <= k <= |es| && es' == es[..k] + [e] + es[k..] {
      LookupInserted(es, k, e, q);
    } else {
      var k :| 0 <= k < |es| && es[k].name == [] && es' == es[k := e];
      LookupReused(es, k, e, q);
    }
  }

  lemma LinkedReuse(recs: seq<Rec>, i: nat, r: Rec)
    requires i < |recs| && recs[i].name == []
    ensures Linked(Entries(recs), Entries(recs[i := r]), Entry(r.name, r.ino, r.kind))
  {
  }

  lemma LinkedSplit(recs: seq<Rec>, i: nat, s: Rec, r: Rec)
    requires i < |recs| && s.name == recs[i].name && s.ino == recs[i].ino && s.kind == recs[i].kind
    ensures Linked(Entries(recs), Entries(recs[..i] + [s, r] + recs[i + 1..]), Entry(r.name, r.ino, r.kind))
  {
    var es, e := Entries(recs), Entry(r.name, r.ino, r.kind);
    var es' := Entries(recs[..i] + [s, r] + recs[i + 1..]);
    assert es' == es[..i + 1] + [e] + es[i + 1..];
  }

  lemma LinkedAppend(recs: seq<Rec>, r: Rec)
    ensures Linked(Entries(recs), Entries(recs + [r]), Entry(r.name, r.ino, r.kind))
  {
    var es, e := Entries(recs), Entry(r.name, r.ino, r.kind);
    assert Entries(recs + [r]) == es[..|es|] + [e] + es[|es|..];
  }

  lemma WriteHeaderIs(b: seq<byte>, r: Rec)
    requires Sized(r, |b|)
    ensures Fits(HeaderOf(r)) && WriteHeader(b, r) == Overlay(b, r.pos, Encode(HeaderOf(r)))
  {
  }

  /** The merged record length fits its 16 bits. */
  predicate MergeFits(recs: seq<Rec>, i: nat)
    requires i < |recs|
  {
    if i > 0 then recs[i - 1].len + recs[i].len < 0x1_0000
    else |recs| > 1 ==> recs[0].len + recs[1].len < 0x1_0000
  }

  function Without(es: seq<Entry>, i: nat): seq<Entry>
    requires i < |es|
  {
    es[..i] + es[i + 1..]
  }

  lemma FusedEntries(recs: seq<Rec>, i: nat, r: Rec)
    requires 0 < i < |recs|
    ensures r.name == recs[i - 1].name && r.ino == recs[i - 1].ino && r.kind == recs[i - 1].kind ==>
      Entries(Fused(recs, i, r)) == Without(Entries(recs), i)
    ensures r.name == recs[i].name && r.ino == recs[i].ino && r.kind == recs[i].kind ==>
      Entries(Fused(recs, i, r)) == Without(Entries(recs), i - 1)
  {
  }

  lemma WriteRecIs(b: seq<byte>, r: Rec)
    requires Sized(r, |b|)
    ensures Fits(HeaderOf(r)) && WriteRec(b, r) == Overlay(Overlay(b, r.pos + 8, r.name), r.pos, Encode(HeaderOf(r)))
  {
  }

  /** Rewriting the first header leaves the second record's name in place. */
  lemma SecondName(b: seq<byte>, recs: seq<Rec>, h: Header)
    requires Rep(b, recs) && |recs| > 1 && Fits(h)
    ensures recs[1].pos >= 8 && recs[1].pos + 8 + |recs[1].name| <= |b| && 8 + |recs[1].name| <= |b|
    ensures Overlay(b, 0, Encode(h))[recs[1].pos + 8..recs[1].pos + 8 + |recs[1].name|] == recs[1].name
  {
  }

  /** The bytes determine the records: a directory file has one reading. */
  lemma {:induction false} OneReading(b: seq<byte>, recs: seq<Rec>, b': seq<byte>, recs': seq<Rec>, k: nat)
    requires Rep(b, recs) && Rep(b', recs') && |b'| >= |b| && k < |recs| && Agree(b, b', 0, recs[k].pos)
    ensures k < |recs'| && recs'[..k] == recs[..k] && recs'[k].pos == recs[k].pos
    decreases k
  {
    hide GetHeader, HeaderOf, IsName, Room;
    assert RecOk(b, recs[k]);
    if k > 0 {
      ChainOrder(recs, |b|, k - 1, k);
      OneReading(b, recs, b', recs', k - 1);
      SameRecord(b, b', recs[k - 1], recs'[k - 1]);
      assert recs'[..k] == recs'[..k - 1] + [recs'[k - 1]];
      assert recs[..k] == recs[..k - 1] + [recs[k - 1]];
    }
  }

  lemma SameRecord(b: seq<byte>, b': seq<byte>, r: Rec, r': Rec)
    requires RecOk(b, r) && RecOk(b', r') && r.pos == r'.pos && Agree(b, b', r.pos, r.pos + r.len)
    ensures r == r'
  {
  }

  /** The header and name written at record `k` decide how the file reads from there on, if it reads at all. */
  lemma ReadsWritten(b: seq<byte>, recs: seq<Rec>, k: nat, b': seq<byte>, r: Rec, recs': seq<Rec>)
    requires Rep(b, recs) && k < |recs| && |b'| == |b| && Agree(b, b', 0, recs[k].pos)
    requires r.pos == recs[k].pos && r.pos + 8 + |r.name| <= |b'|
    requires GetHeader(b', r.pos) == HeaderOf(r) && b'[r.pos + 8..r.pos + 8 + |r.name|] == r.name
    ensures Rep(b', recs') ==> k < |recs'| && recs'[..k] == recs[..k] && recs'[k] == r
  {
    hide GetHeader, Chain, Agree;
    if Rep(b', recs') {
      OneReading(b, recs, b', recs', k);
      SpelledOut(b', r, recs'[k]);
    }
  }

  /** Two records that the same bytes spell out are the same. */
  lemma SpelledOut(b: seq<byte>, r: Rec, r': Rec)
    requires RecOk(b, r') && r.pos == r'.pos && r.pos + 8 + |r.name| <= |b|
    requires GetHeader(b, r.pos) == HeaderOf(r) && b[r.pos + 8..r.pos + 8 + |r.name|] == r.name
    ensures r == r'
  {
    hide GetHeader;
  }

  /** If a longer file reads at all, it reads on behind the records of the shorter one. */
  lemma ReadsOn(b: seq<byte>, recs: seq<Rec>, b': seq<byte>, recs': seq<Rec>)
    requires Rep(b, recs) && Rep(b', recs') && |b'| > |b| && Agree(b, b', 0, |b|)
    ensures |recs| < |recs'| && recs'[|recs|].pos == |b|
  {
    hide GetHeader;
    var k := |recs|;
    if k > 0 {
      OneReading(b, recs, b', recs', k - 1);
      assert RecOk(b, recs[k - 1]) && RecOk(b', recs'[k - 1]);
      SameRecord(b, b', recs[k - 1], recs'[k - 1]);
    }
  }

  lemma LongEnough(b: seq<byte>, r: Rec)
    requires r.pos + 8 <= |b| && GetHeader(b, r.pos).recLen == 0
    ensures !RecOk(b, r)
  {
  }

  /** A block of zeros behind the last record cannot be read. */
  lemma ZeroTail(b: seq<byte>, recs: seq<Rec>, n: nat, recs': seq<Rec>)
    requires Rep(b, recs) && n >= 8
    ensures !Rep(b + Zeros(n), recs')
  {
    var b' := b + Zeros(n);
    if Rep(b', recs') {
      ReadsOn(b, recs, b', recs');
      LongEnough(b', recs'[|recs|]);
    }
  }

  /** The records after an unlink of record `i`: the one in front grows, or the second moves to the front. */
  ghost function Merged(recs: seq<Rec>, i: nat): seq<Rec>
    requires i < |recs| && |recs| > 1
  {
    if i > 0 then Fused(recs, i, Grown(recs, i)) else Fused(recs, 1, Moved(recs))
  }

  /** The record that takes the place of two when their length wraps. */
  ghost function WrappedRec(recs: seq<Rec>, i: nat): Rec
    requires i < |recs| && |recs| > 1 && !MergeFits(recs, i)
  {
    var r := if i > 0 then Grown(recs, i) else Moved(recs);
    r.(len := r.len - 0x1_0000)
  }

  /** Where the record that takes the place of two stands. */
  function Heir(i: nat): nat {
    if i > 0 then i - 1 else 0
  }

  /** The file after an unlink of record `i` whose merged length does not fit: any reading of it goes astray there. */
  ghost predicate Astray(b: seq<byte>, recs: seq<Rec>, i: nat)
    requires i < |recs| && |recs| > 1 && !MergeFits(recs, i)
  {
    forall recs' :: Rep(b, recs') ==>
      Heir(i) < |recs'| && recs'[..Heir(i)] == recs[..Heir(i)] && recs'[Heir(i)] == WrappedRec(recs, i)
  }

  /** A record longer than 16 bits allow is no record. */
  lemma MergedFits(b: seq<byte>, recs: seq<Rec>, i: nat)
    requires i < |recs| && |recs| > 1
    ensures Rep(b, Merged(recs, i)) ==> MergeFits(recs, i)
  {
    var r := Merged(recs, i)[Heir(i)];
    assert Rep(b, Merged(recs, i)) ==> RecOk(b, r);
  }

  lemma GrowWraps(b: seq<byte>, recs: seq<Rec>, i: nat, h: Header, b': seq<byte>)
    requires Rep(b, recs) && 0 < i < |recs| && !MergeFits(recs, i)
    requires h == HeaderOf(WrappedRec(recs, i)) && recs[i - 1].pos + 8 <= |b| && Fits(h)
    requires b' == Overlay(b, recs[i - 1].pos, Encode(h))
    ensures Astray(b', recs, i)
  {
    hide GetHeader, Encode;
    var r := recs[i - 1];
    assert RecOk(b, r);
    EncodeDecode(b', r.pos, h);
    OverlayApart(b, r.pos, Encode(h), r.pos + 8, r.pos + 8 + |r.name|);
    forall recs'
      ensures Rep(b', recs') ==>
        i - 1 < |recs'| && recs'[..i - 1] == recs[..i - 1] && recs'[i - 1] == WrappedRec(recs, i)
    {
      ReadsWritten(b, recs, i - 1, b', WrappedRec(recs, i), recs');
    }
  }

  lemma MoveWraps(b: seq<byte>, recs: seq<Rec>, h: Header, b': seq<byte>)
    requires Rep(b, recs) && |recs| > 1 && !MergeFits(recs, 0)
    requires h == HeaderOf(WrappedRec(recs, 0)) && 8 + |recs[1].name| <= |b| && Fits(h)
    requires b' == Overlay(Overlay(b, 0, Encode(h)), 8, recs[1].name)
    ensures Astray(b', recs, 0)
  {
    hide GetHeader, Encode;
    var one := Overlay(b, 0, Encode(h));
    OverlayApart(one, 8, recs[1].name, 0, 8);
    EncodeDecode(b', 0, h);
    assert b'[8..8 + |recs[1].name|] == recs[1].name;
    hide Overlay;
    forall recs'
      ensures Rep(b', recs') ==> 0 < |recs'| && recs'[..0] == recs[..0] && recs'[0] == WrappedRec(recs, 0)
    {
      ReadsWritten(b, recs, 0, b', WrappedRec(recs, 0), recs');
    }
  }

  /** The file after the second record was written over the first. */
  lemma MoveResult(b: seq<byte>, recs: seq<Rec>, h: Header, b': seq<byte>)
    requires Rep(b, recs) && |recs| > 1 && 8 + |recs[1].name| <= |b| && Fits(h)
    requires h == HeaderOf(recs[1]).(recLen := (recs[0].len + recs[1].len) % 0x1_0000)
    requires b' == Overlay(Overlay(b, 0, Encode(h)), 8, recs[1].name)
    ensures Rep(b', Merged(recs, 0)) <==> MergeFits(recs, 0)
    ensures MergeFits(recs, 0) <==> recs[0].len + recs[1].len < 0x1_0000
    ensures MergeFits(recs, 0) ==> Entries(Merged(recs, 0)) == Without(Entries(recs), 0)
    ensures !MergeFits(recs, 0) ==> Astray(b', recs, 0)
  {
    hide Rep, WriteRec, Overlay, Encode, GetHeader, Astray, Entries;
    TwoLengths(b, recs);
    MergedFits(b', recs, 0);
    if MergeFits(recs, 0) {
      MoveRep(b, recs);
      FusedEntries(recs, 1, Moved(recs));
      OverlaySwap(b, 0, Encode(h), 8, recs[1].name);
      WriteRecIs(b, Moved(recs));
    } else {
      MoveWraps(b, recs, h, b');
    }
  }

  lemma TwoLengths(b: seq<byte>, recs: seq<Rec>)
    requires Rep(b, recs) && |recs| > 1
    ensures recs[0].len < 0x1_0000 && recs[1].len < 0x1_0000
  {
    assert RecOk(b, recs[0]) && RecOk(b, recs[1]);
  }

  // ---------- the directory ----------

  lemma RecIs(b: seq<byte>, r: Rec)
    requires Sized(r, |b|)
    ensures Fits(HeaderOf(r)) && r.pos + 8 + |r.name| <= |b|
    ensures WriteRec(b, r) == Overlay(Overlay(b, r.pos + 8, r.name), r.pos, Encode(HeaderOf(r)))
  {
  }

  /** A record in a new block behind the others; without it the block cannot be read. */
  lemma NewRecord(b: seq<byte>, recs: seq<Rec>, r: Rec)
    requires Rep(b, recs) && r.pos == |b| && 1024 <= r.len < 0x1_0000 && IsName(r.name) && r.name != []
    requires 0 < r.ino < 0x1_0000_0000 && r.kind < 256
    ensures Fits(HeaderOf(r)) && |r.name| < 256
    ensures Rep(Overlay(Overlay(b + Zeros(r.len), r.pos + 8, r.name), r.pos, Encode(HeaderOf(r))), recs + [r])
    ensures Linked(Entries(recs), Entries(recs + [r]), Entry(r.name, r.ino, r.kind))
    ensures forall recs' :: !Rep(b + Zeros(r.len), recs')
  {
    hide Rep, WriteRec, Overlay, Linked, Entries;
    assert Sized(r, |b| + r.len);
    AppendRep(b, recs, r);
    LinkedAppend(recs, r);
    RecIs(b + Zeros(r.len), r);
    forall recs'
      ensures !Rep(b + Zeros(r.len), recs')
    {
      ZeroTail(b, recs, r.len, recs');
    }
  }

  /** What reading a record returns. */
  lemma HeaderIn(b: seq<byte>, recs: seq<Rec>, i: nat)
    requires Rep(b, recs) && i < |recs|
    ensures Sized(recs[i], |b|) && recs[i].pos + 8 + |recs[i].name| <= |b|
    ensures GetHeader(b[recs[i].pos..recs[i].pos + 8], 0) == HeaderOf(recs[i])
    ensures b[recs[i].pos + 8..recs[i].pos + 8 + |recs[i].name|] == recs[i].name
    ensures recs[i].pos + recs[i].len == if i + 1 < |recs| then recs[i + 1].pos else |b|
  {
    assert RecOk(b, recs[i]);
    var d := b[recs[i].pos..recs[i].pos + 8];
    assert forall k :: 0 <= k < 8 ==> d[k] == b[recs[i].pos + k];
  }

  /** No record has room for one of this size. */
  ghost predicate Crowded(recs: seq<Rec>, room: nat) {
    forall i :: 0 <= i < |recs| ==>
      recs[i].len < Room(|recs[i].name|) + room && (recs[i].name == [] ==> recs[i].len < room)
  }

  class Dir {
    const store: DirFile
    /** The records the file holds. */
    ghost var recs: seq<Rec>

    ghost predicate Valid()
      reads this, store, store.file, store.file.table
    {
      store.Valid() && Rep(store.bytes, recs)
    }

    /** Since then no pointer of the inode has been taken away and no block of another file has changed. */
    ghost predicate Untouched(disk: seq<seq<byte>>, root: seq<nat>, used: iset<nat>)
      requires store.file.table.s.perGroup > 0
      reads store.file, store.file.table
    {
      Undisturbed(store.file.N, disk, root, used, store.file.disk, store.file.root, store.file.InUse())
    }

    /** So it was then, and so it is now. */
    lemma StillUntouched(disk: seq<seq<byte>>, root: seq<nat>, used: iset<nat>,
                         mid: seq<seq<byte>>, root': seq<nat>, used': iset<nat>)
      requires store.file.Valid() && Undisturbed(store.file.N, disk, root, used, mid, root', used')
      requires Untouched(mid, root', used')
      ensures Untouched(disk, root, used)
    {
      UndisturbedTwice(store.file.N, disk, root, used, mid, root', used', store.file.disk, store.file.root,
                       store.file.InUse());
    }

    lemma UntouchedStart()
      requires store.file.Valid()
      ensures Untouched(store.file.disk, store.file.root, store.file.InUse())
    {
      UndisturbedStart(store.file.N, store.file.disk, store.file.root, store.file.InUse());
    }

    constructor (store: DirFile)
      requires store.Valid() && store.bytes == []
      ensures Valid() && recs == [] && this.store == store
    {
      this.store, recs := store, [];
    }

    /** The offset of record `i`, or the end of the file. */
    ghost function PosOf(i: nat): nat
      requires i <= |recs|
      reads this, store
    {
      if i < |recs| then recs[i].pos else |store.bytes|
    }

    /** ext2_read_inode of a record header. */
    method ReadHeader(pos: nat, ghost i: nat) returns (h: Header)
      requires Valid() && i < |recs| && pos == recs[i].pos
      ensures h == HeaderOf(recs[i]) && Sized(recs[i], |store.bytes|)
      ensures PosOf(i + 1) == pos + h.recLen <= |store.bytes|
    {
      hide Rep, GetHeader, store.Valid, store.Tied;
      HeaderIn(store.bytes, recs, i);
      store.Ready();
      var d := store.ReadAt(pos, 8);
      h := GetHeader(d, 0);
    }

    /** ext2_read_inode of a record's name. */
    method ReadName(pos: nat, n: nat, ghost i: nat) returns (name: seq<byte>)
      requires Valid() && i < |recs| && pos == recs[i].pos && n == |recs[i].name|
      ensures name == recs[i].name
    {
      hide Rep, store.Valid, store.Tied;
      HeaderIn(store.bytes, recs, i);
      store.Ready();
      name := store.ReadAt(pos + 8, n);
    }

    /** Where the chain ends. */
    lemma AtEnd(i: nat)
      requires Valid() && i <= |recs|
      ensures PosOf(i) < |store.bytes| <==> i < |recs|
      ensures i < |recs| ==> PosOf(i) + 8 <= |store.bytes|
      ensures |recs| == 0 ==> |store.bytes| == 0
      ensures |recs| > 0 ==> recs[0].pos == 0
      ensures 0 < i < |recs| ==> recs[i].pos > 0
      ensures store.file.size == |store.bytes|
    {
      store.Ready();
      if i < |recs| {
        assert RecOk(store.bytes, recs[i]);
        if i > 0 {
          assert RecOk(store.bytes, recs[0]);
          ChainOrder(recs, |store.bytes|, 0, i);
        }
      }
    }

    /** ext2_finddir over ext2_ireaddir: the first entry with this name. */
    method FindDir(name: seq<byte>) returns (r: Option<nat>)
      requires Valid()
      ensures r == Lookup(Entries(recs), name)
    {
      hide Rep, Sized, Entries, store.Valid;
      var offset := 0;
      ghost var i := 0;
      AtEnd(0);
      assert Entries(recs)[0..] == Entries(recs);
      while offset + 8 <= store.file.size
        invariant i <= |recs| && offset == PosOf(i)
        invariant Lookup(Entries(recs), name) == Lookup(Entries(recs)[i..], name)
        decreases |recs| - i
      {
        AtEnd(i);
        var h := ReadHeader(offset, i);
        var found := ReadName(offset, h.nameLen, i);
        ghost var es := Entries(recs)[i..];
        assert es[0] == Entry(recs[i].name, recs[i].ino, recs[i].kind) && es[1..] == Entries(recs)[i + 1..];
        if found == name {
          return Some(h.ino);
        }
        offset := offset + h.recLen;
        i := i + 1;
      }
      AtEnd(i);
      r := None;
    }

    /** The loop of ext2_link: a nameless record that is large enough, or one with enough slack. */
    method FindRoom(room: nat) returns (found: int, pos: nat, h: Header, ghost i: nat)
      requires Valid() && room > 0
      ensures found in {0, 1, 2} && i <= |recs| && pos == PosOf(i)
      ensures found == 0 ==> i == |recs|
      ensures found != 0 ==> i < |recs| && h == HeaderOf(recs[i])
      ensures found == 1 ==> recs[i].name == [] && recs[i].len >= room
      ensures found == 2 ==> recs[i].len >= Room(|recs[i].name|) + room
      ensures Crowded(recs[..i], room)
    {
      hide Rep, store.Valid;
      pos, h, i := 0, Header(0, 0, 0, 0), 0;
      AtEnd(0);
      while pos < store.file.size
        invariant i <= |recs| && pos == PosOf(i)
        invariant Crowded(recs[..i], room)
        decreases |recs| - i
      {
        AtEnd(i);
        h := ReadHeader(pos, i);
        if (h.ino == 0 || h.nameLen == 0) && h.recLen >= room {
          return 1, pos, h, i;
        }
        if h.recLen - Room(h.nameLen) >= room {
          return 2, pos, h, i;
        }
        pos := pos + h.recLen;
        i := i + 1;
      }
      AtEnd(i);
      found := 0;
    }

    /** The two writes of a record: its name and then its header. */
    method PutRec(r: Rec)
      requires store.Valid() && Sized(r, |store.bytes|)
      modifies store`bytes, store.file`disk, store.file`root, store.file.table
      ensures store.Valid() && store.bytes == WriteRec(old(store.bytes), r)
      ensures store.file.table.superFree == old(store.file.table.superFree)
      ensures store.file.Valid() && Untouched(old(store.file.disk), old(store.file.root), old(store.file.InUse()))
    {
      hide Overlay, store.Valid, store.file.Valid, store.file.InUse, Undisturbed;
      RecIs(store.bytes, r);
      store.WriteAt(r.pos + 8, r.name);
      store.Ready();
      ghost var disk, root, used := store.file.disk, store.file.root, store.file.InUse();
      store.WriteAt(r.pos, Encode(HeaderOf(r)));
      store.Ready();
      StillUntouched(old(store.file.disk), old(store.file.root), old(store.file.InUse()), disk, root, used);
    }

    /**
     ext2_link. In a directory with room for it the entry is there afterwards. A
     crowded one grows by a block, and then the entry is there exactly if the block's
     pointer can be set and the volume has the blocks it takes. If not, `lost` tells,
     which the source does only for want of blocks: the size has grown all the same,
     and the directory cannot be read any more. Where the walk to the pointer breaks
     off at the very top, the model stops with `strays`.
     */
    method Link(name: seq<byte>, ino: nat) returns (status: int, lost: bool, strays: bool)
      requires Valid() && IsName(name) && name != [] && 0 < ino < 0x1_0000_0000
      modifies this, store`bytes, store.file, store.file.table
      ensures strays <==> old(Crowded(recs, Room(|name|)) && !store.Reaches())
      ensures strays ==> Valid() && recs == old(recs) && !lost && store.file.N > 0 && !store.Reaches()
      ensures lost <==> !strays && old(Crowded(recs, Room(|name|)) && store.Loses())
      ensures !strays && !lost ==>
        status == 0 && Valid() && Linked(Entries(old(recs)), Entries(recs), Entry(name, ino, 0))
      ensures lost ==> store.Tied() && store.bytes == old(store.bytes) + Zeros(store.BlockSize())
      ensures lost ==> status in {0, File.ENOSPC} && forall recs' :: !Rep(store.bytes, recs')
      ensures lost && !old(store.Settable(|store.bytes|)) && old(store.file.table.superFree) >= 6 ==> status == 0
      ensures lost && old(store.Settable(|store.bytes|)) ==> status == File.ENOSPC
      ensures lost ==> !store.Settable(|old(store.bytes)|) || store.file.table.superFree == 0
      ensures old(!Crowded(recs, Room(|name|))) ==> |store.bytes| == |old(store.bytes)|
      ensures !lost && |store.bytes| == |old(store.bytes)| ==>
        store.file.table.superFree == old(store.file.table.superFree)
      ensures !lost && !strays && |store.bytes| != |old(store.bytes)| ==>
        && |store.bytes| == |old(store.bytes)| + store.BlockSize()
        && store.file.table.superFree == old(store.file.table.superFree) - old(store.GrowthCost())
      ensures store.file.Valid() && Untouched(old(store.file.disk), old(store.file.root), old(store.file.InUse()))
    {
      hide Rep, WriteRec, WriteHeader, store.Valid, store.Grounded, store.Tied, store.Reaches, Overlay, Crowded,
        Linked, Untouched, store.file.Valid, store.file.InUse;
      status, lost, strays := 0, false, false;
      var room := Room(|name|);
      var found, pos, h;
      ghost var i;
      found, pos, h, i := FindRoom(room);
      RoomHere(recs, room, i, found);
      store.Ready();
      UntouchedStart();
      if found == 1 {
        SizedHere(i);
        var r := Rec(pos, h.recLen, ino, name, 0);
        ReuseRep(store.bytes, recs, i, r);
        LinkedReuse(recs, i, r);
        PutRec(r);
        recs := recs[i := r];
      } else if found == 2 {
        Split(name, ino, pos, h, i);
      } else {
        AtEnd(i);
        store.Ready();
        if !store.Reaches() {
          strays := true;
          return;
        }
        status, lost := LinkNew(name, ino);
      }
    }

    /** The new record is cut from the slack of record `i`. */
    method Split(name: seq<byte>, ino: nat, pos: nat, h: Header, ghost i: nat)
      requires Valid() && IsName(name) && name != [] && 0 < ino < 0x1_0000_0000
      requires i < |recs| && h == HeaderOf(recs[i]) && pos == recs[i].pos
      requires recs[i].len >= Room(|recs[i].name|) + Room(|name|)
      modifies this, store`bytes, store.file`disk, store.file`root, store.file.table
      ensures Valid() && Linked(Entries(old(recs)), Entries(recs), Entry(name, ino, 0))
      ensures |store.bytes| == |old(store.bytes)|
      ensures store.file.table.superFree == old(store.file.table.superFree)
      ensures store.file.Valid() && Untouched(old(store.file.disk), old(store.file.root), old(store.file.InUse()))
    {
      hide Rep, WriteRec, WriteHeader, store.Valid, Overlay, Linked, Encode, Undisturbed, store.file.Valid,
        store.file.InUse;
      SizedHere(i);
      var at := Room(h.nameLen);
      var r := Rec(pos + at, h.recLen - at, ino, name, 0);
      SplitRep(store.bytes, recs, i, r);
      LinkedSplit(recs, i, Shortened(recs[i]), r);
      assert h.(recLen := at) == HeaderOf(Shortened(recs[i]));
      WriteHeaderIs(WriteRec(store.bytes, r), Shortened(recs[i]));
      PutRec(r);
      store.Ready();
      ghost var disk, root, used := store.file.disk, store.file.root, store.file.InUse();
      store.WriteAt(pos, Encode(h.(recLen := at)));
      StillUntouched(old(store.file.disk), old(store.file.root), old(store.file.InUse()), disk, root, used);
      recs := recs[..i] + [Shortened(recs[i]), r] + recs[i + 1..];
    }

    /** The new record gets a block of its own. */
    method LinkNew(name: seq<byte>, ino: nat) returns (status: int, lost: bool)
      requires Valid() && IsName(name) && name != [] && 0 < ino < 0x1_0000_0000 && store.Reaches()
      modifies this, store`bytes, store.file, store.file.table
      ensures lost <==> old(store.Loses())
      ensures !lost ==> status == 0 && Valid() && Linked(Entries(old(recs)), Entries(recs), Entry(name, ino, 0))
      ensures |store.bytes| == |old(store.bytes)| + store.BlockSize() && store.BlockSize() > 0
      ensures lost ==> store.Tied() && store.bytes == old(store.bytes) + Zeros(store.BlockSize())
      ensures lost ==> status in {0, File.ENOSPC} && forall recs' :: !Rep(store.bytes, recs')
      ensures lost && !old(store.Settable(|store.bytes|)) && old(store.file.table.superFree) >= 6 ==> status == 0
      ensures lost && old(store.Settable(|store.bytes|)) ==> status == File.ENOSPC
      ensures lost ==> !store.Settable(|old(store.bytes)|) || store.file.table.superFree == 0
      ensures !lost ==> store.file.table.superFree == old(store.file.table.superFree) - old(store.GrowthCost())
      ensures store.file.Valid() && Untouched(old(store.file.disk), old(store.file.root), old(store.file.InUse()))
    {
      hide Rep, WriteRec, WriteHeader, Overlay, Linked, Entries, Encode, IsName, Sized, HeaderOf, store.Valid,
        store.Tied, store.Reaches, store.Settable, store.Loses, store.GrowthCost, Undisturbed, store.file.Valid,
        store.file.InUse;
      store.Ready();
      var pos, size := store.file.size, store.BlockSize();
      var r := Rec(pos, size, ino, name, 0);
      NewRecord(store.bytes, recs, r);
      status, lost := store.AddBlock(name, Encode(HeaderOf(r)));
      if !lost {
        recs := recs + [r];
      }
    }

    lemma SizedHere(i: nat)
      requires Valid() && i < |recs|
      ensures Sized(recs[i], |store.bytes|)
    {
      hide store.Valid;
      assert RecOk(store.bytes, recs[i]);
    }

    /** The loop of ext2_unlink: the first record with this name, and the one in front of it. */
    method FindRecord(name: seq<byte>) returns (found: bool, pos: nat, h: Header, lpos: nat, prev: Header, ghost i: nat)
      requires Valid()
      ensures found ==> i < |recs| && pos == recs[i].pos && h == HeaderOf(recs[i]) && recs[i].name == name
      ensures found && i > 0 ==> lpos == recs[i - 1].pos && prev == HeaderOf(recs[i - 1])
      ensures !found ==> i == |recs|
      ensures i <= |recs| && forall j :: 0 <= j < i ==> recs[j].name != name
    {
      hide Rep, store.Valid;
      pos, h, i := 0, Header(0, 0, 0, 0), 0;
      lpos, prev := 0, h;
      AtEnd(0);
      while pos < store.file.size
        invariant i <= |recs| && pos == PosOf(i)
        invariant forall j :: 0 <= j < i ==> recs[j].name != name
        invariant 0 < i ==> lpos == recs[i - 1].pos && prev == HeaderOf(recs[i - 1])
        decreases |recs| - i
      {
        AtEnd(i);
        h := ReadHeader(pos, i);
        if h.nameLen == |name| {
          var n := ReadName(pos, h.nameLen, i);
          if n == name {
            found := true;
            return;
          }
        }
        lpos, prev := pos, h;
        pos := pos + h.recLen;
        i := i + 1;
      }
      AtEnd(i);
      found := false;
    }

    /** ext2_unlink of a record that is not the first: the one in front of it grows over it. */
    method Absorb(h: Header, lpos: nat, prev: Header, ghost i: nat) returns (fits: bool)
      requires Valid() && 0 < i < |recs| && h == HeaderOf(recs[i])
      requires lpos == recs[i - 1].pos && prev == HeaderOf(recs[i - 1])
      modifies this, store`bytes, store.file`disk, store.file`root, store.file.table
      ensures fits == old(MergeFits(recs, i)) && |store.bytes| == |old(store.bytes)| && store.Valid()
      ensures Rep(store.bytes, Merged(old(recs), i)) <==> fits
      ensures fits ==> Valid() && Entries(recs) == Without(Entries(old(recs)), i)
      ensures !fits ==> recs == old(recs) && Astray(store.bytes, old(recs), i)
      ensures store.file.Valid() && Untouched(old(store.file.disk), old(store.file.root), old(store.file.InUse()))
    {
      hide Rep, Overlay, Encode, GetHeader, Entries, WriteHeader, RecOk, store.Valid, store.file.Valid,
        store.file.InUse, Undisturbed;
      SizedHere(i);
      SizedHere(i - 1);
      var h' := prev.(recLen := (prev.recLen + h.recLen) % 0x1_0000);
      fits := prev.recLen + h.recLen < 0x1_0000;
      ghost var b' := Overlay(store.bytes, lpos, Encode(h'));
      MergedFits(b', recs, i);
      if fits {
        GrowRep(store.bytes, recs, i);
        WriteHeaderIs(store.bytes, Grown(recs, i));
        FusedEntries(recs, i, Grown(recs, i));
        recs := Fused(recs, i, Grown(recs, i));
      } else {
        GrowWraps(store.bytes, recs, i, h', b');
      }
      store.WriteAt(lpos, Encode(h'));
    }

    /** ext2_unlink of the first record: the second one moves into its place. */
    method MoveSecond(h: Header) returns (fits: bool)
      requires Valid() && |recs| > 1 && h == HeaderOf(recs[0])
      modifies this, store`bytes, store.file`disk, store.file`root, store.file.table
      ensures fits == old(MergeFits(recs, 0)) && |store.bytes| == |old(store.bytes)| && store.Valid()
      ensures Rep(store.bytes, Merged(old(recs), 0)) <==> fits
      ensures fits ==> Valid() && Entries(recs) == Without(Entries(old(recs)), 0)
      ensures !fits ==> recs == old(recs) && Astray(store.bytes, old(recs), 0)
      ensures store.file.Valid() && Untouched(old(store.file.disk), old(store.file.root), old(store.file.InUse()))
    {
      hide Rep, Overlay, Encode, GetHeader, Entries, Merged, Astray, MergeFits, store.Valid, store.Tied,
        store.file.Valid, store.file.InUse, Undisturbed;
      AtEnd(1);
      ghost var was := store.bytes;
      var dpos := h.recLen;
      SecondPos();
      var d := ReadHeader(dpos, 1);
      var d' := d.(recLen := (d.recLen + h.recLen) % 0x1_0000);
      fits := d.recLen + h.recLen < 0x1_0000;
      store.WriteAt(0, Encode(d'));
      SecondName(was, recs, d');
      store.Ready();
      var name := store.ReadAt(dpos + 8, d.nameLen);
      ghost var disk, root, used := store.file.disk, store.file.root, store.file.InUse();
      store.WriteAt(8, name);
      store.Ready();
      StillUntouched(old(store.file.disk), old(store.file.root), old(store.file.InUse()), disk, root, used);
      MoveResult(was, recs, d', store.bytes);
      if fits {
        recs := Merged(recs, 0);
      }
    }

    lemma SecondPos()
      requires Valid() && |recs| > 1
      ensures recs[1].pos == recs[0].len && recs[0].len >= 8 && recs[1].len >= 8 + |recs[1].name|
    {
      hide store.Valid;
      assert RecOk(store.bytes, recs[0]) && RecOk(store.bytes, recs[1]);
    }

    /**
     ext2_unlink. The first entry with the name goes, the others stay as they are, and
     the file reads as the merged chain, exactly if the merged length fits 16 bits;
     `fits` tells, which the source does not. A directory with that single record is
     refused with EIO.
     */
    method Unlink(name: seq<byte>) returns (status: int, fits: bool, ghost i: nat)
      requires Valid()
      modifies this, store`bytes, store.file`disk, store.file`root, store.file.table
      ensures status in {0, ENOENT, EIO} && |store.bytes| == |old(store.bytes)| && store.Valid()
      ensures status == ENOENT <==> Lookup(Entries(old(recs)), name) == None
      ensures status == EIO ==> |old(recs)| == 1
      ensures status != 0 ==> fits && Valid() && store.bytes == old(store.bytes) && recs == old(recs)
      ensures status == 0 ==> i < |old(recs)| && |old(recs)| > 1 && old(recs)[i].name == name
      ensures status == 0 ==> forall j :: 0 <= j < i ==> old(recs)[j].name != name
      ensures status == 0 ==> fits == MergeFits(old(recs), i) && (Rep(store.bytes, Merged(old(recs), i)) <==> fits)
      ensures status == 0 && fits ==> Valid() && Entries(recs) == Without(Entries(old(recs)), i)
      ensures status == 0 && !fits ==> recs == old(recs) && Astray(store.bytes, old(recs), i)
      ensures store.file.Valid() && Untouched(old(store.file.disk), old(store.file.root), old(store.file.InUse()))
    {
      hide Rep, Merged, Astray, store.Valid, Untouched, store.file.Valid, store.file.InUse;
      store.Ready();
      UntouchedStart();
      fits := true;
      var found, pos, h, lpos, prev;
      found, pos, h, lpos, prev, i := FindRecord(name);
      LookupNone(Entries(recs), name);
      if !found {
        return ENOENT, true, i;
      }
      assert Entries(recs)[i].name == name;
      AtEnd(i);
      if pos != 0 {
        fits := Absorb(h, lpos, prev, i);
        return 0, fits, i;
      }
      OnlyRecord(i);
      if h.recLen + 8 > store.file.size {
        return EIO, true, i;
      }
      fits := MoveSecond(h);
      return 0, fits, i;
    }

    lemma OnlyRecord(i: nat)
      requires Valid() && i < |recs| && recs[i].pos == 0
      ensures i == 0 && (|recs| == 1 <==> recs[0].len + 8 > |store.bytes|)
    {
      hide store.Valid;
      AtEnd(i);
      assert RecOk(store.bytes, recs[0]);
      if |recs| > 1 {
        assert RecOk(store.bytes, recs[1]);
      }
    }
  }

  lemma RoomHere(recs: seq<Rec>, room: nat, i: nat, found: int)
    requires i <= |recs| && Crowded(recs[..i], room) && (found == 0 ==> i == |recs|)
    requires found == 1 ==> i < |recs| && recs[i].name == [] && recs[i].len >= room
    requires found == 2 ==> i < |recs| && recs[i].len >= Room(|recs[i].name|) + room
    ensures found in {0, 1, 2} ==> (Crowded(recs, room) <==> found == 0)
  {
    if found == 0 {
      assert recs[..i] == recs;
    }
  }
}
