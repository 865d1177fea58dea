/**
 The hash table with a least-recently-used list (util/mruc.c over util/llist.c).
 Every entry sits in two circular doubly linked structures at once: the bucket
 its hash selects, and the list ordered by last use.
 */
module Mruc {

  class Node {
    /** mru_link. */
    var next: Node?
    var prev: Node?
    var bktNext: Node?
    var bktPrev: Node?
    var hash: nat
    /** The cache it is in, as a flag. */
    var cached: bool
    /** When it was added, and when it was last added or bumped. */
    ghost var added: nat
    ghost var used: nat

    constructor ()
      ensures next == null && prev == null && bktNext == null && bktPrev == null && !cached
    {
      next, prev, bktNext, bktPrev, hash, cached := null, null, null, null, 0, false;
    }
  }

  ghost predicate Distinct(s: seq<Node>) {
    forall i, j :: 0 <= i < j < |s| ==> s[i] != s[j]
  }

  ghost predicate Tied(a: Node, b: Node)
    reads a`next, b`prev
  {
    a.next == b && b.prev == a
  }

  /** Each node points to the one behind it and back. */
  ghost predicate Linked(r: seq<Node>)
    reads r`next, r`prev
  {
    forall i :: 0 <= i < |r| - 1 ==> Tied(r[i], r[i + 1])
  }

  /** A llist: the head node and the nodes of the list form a circle. */
  ghost predicate Ring(h: Node, l: seq<Node>)
    reads h`next, h`prev, l`next, l`prev
  {
    Distinct([h] + l) && Linked([h] + l + [h])
  }

  lemma DistinctAppend(s: seq<Node>, e: Node)
    requires Distinct(s) && e !in s
    ensures Distinct(s + [e])
  {
  }

  lemma DistinctRemove(s: seq<Node>, k: nat)
    requires Distinct(s) && k < |s|
    ensures Distinct(s[..k] + s[k + 1..]) && s[k] !in s[..k] + s[k + 1..]
  {
  }

  lemma RingRemove(h: Node, l: seq<Node>, k: nat)
    requires Ring(h, l) && k < |l|
    ensures l[k] !in [h] + (l[..k] + l[k + 1..])
    ensures forall e :: e in l && e != l[k] ==> e in l[..k] + l[k + 1..]
  {
    DistinctRemove([h] + l, k + 1);
    assert [h] + (l[..k] + l[k + 1..]) == ([h] + l)[..k + 1] + ([h] + l)[k + 2..];
  }

  /** llist_add_end. */
  method AddEnd(h: Node, e: Node, ghost l: seq<Node>)
    requires Ring(h, l) && e !in [h] + l
    modifies h`next, h`prev, e`next, e`prev, l`next
    ensures Ring(h, l + [e])
  {
    ghost var r := [h] + l + [h];
    assert Tied(r[|l|], r[|l| + 1]);
    DistinctAppend([h] + l, e);
    assert [h] + (l + [e]) == [h] + l + [e];
    e.prev := h.prev;
    e.next := h;
    h.prev.next := e;
    h.prev := e;
    ghost var r' := [h] + (l + [e]) + [h];
    forall i | 0 <= i < |r'| - 1
      ensures Tied(r'[i], r'[i + 1])
    {
      if i < |l| {
        assert r'[i] == r[i] && r'[i + 1] == r[i + 1];
      }
    }
  }

  /** llist_unlink of the node at position `k`. */
  method Unlink(e: Node, ghost h: Node, ghost l: seq<Node>, ghost k: nat)
    requires Ring(h, l) && k < |l| && l[k] == e
    modifies h`next, h`prev, l`next, l`prev
    ensures Ring(h, l[..k] + l[k + 1..]) && e.next == null && e.prev == null
  {
    ghost var r := [h] + l + [h];
    assert Tied(r[k], r[k + 1]) && Tied(r[k + 1], r[k + 2]);
    ghost var l' := l[..k] + l[k + 1..];
    DistinctRemove([h] + l, k + 1);
    assert [h] + l' == ([h] + l)[..k + 1] + ([h] + l)[k + 2..];
    if e.prev != null {
      e.prev.next := e.next;
    }
    if e.next != null {
      e.next.prev := e.prev;
    }
    e.next := null;
    e.prev := null;
    ghost var r' := [h] + l' + [h];
    forall i | 0 <= i < |r'| - 1
      ensures Tied(r'[i], r'[i + 1])
    {
      if i < k {
        assert r'[i] == r[i] && r'[i + 1] == r[i + 1];
      } else if i > k {
        assert r'[i] == r[i + 1] && r'[i + 1] == r[i + 2];
      } else {
        assert r'[i] == r[k] && r'[i + 1] == r[k + 2];
      }
    }
  }

  /** llist_get_first. */
  method First(h: Node, ghost l: seq<Node>) returns (e: Node?)
    requires Ring(h, l)
    ensures if l == [] then e == null else e == l[0]
  {
    assert Tied(([h] + l + [h])[0], ([h] + l + [h])[1]);
    e := if h.next == h then null else h.next;
  }

  /** Unlinking a node and adding it at the end. */
  method MoveToEnd(h: Node, e: Node, ghost l: seq<Node>, ghost k: nat, ghost clock: nat)
    requires Ring(h, l) && Stamped(l, clock) && k < |l| && l[k] == e
    modifies h`next, h`prev, l`next, l`prev, e`used
    ensures Ring(h, l[..k] + l[k + 1..] + [e]) && Stamped(l[..k] + l[k + 1..] + [e], clock + 1)
    ensures e.used == clock
  {
    hide Linked, Distinct, Ring, Stamped;
    RingRemove(h, l, k);
    StampedBump(l, clock, k);
    ghost var l' := l[..k] + l[k + 1..];
    Unlink(e, h, l, k);
    AddEnd(h, e, l');
    e.used := clock;
    StampedAdd(l', clock, e);
  }

  /** A node about to be added. */
  method Prepare(e: Node, hash: nat, ghost l: seq<Node>, ghost clock: nat)
    requires Stamped(l, clock) && e !in l
    modifies e
    ensures e.cached && e.hash == hash && e.added == clock == e.used
    ensures Stamped(l + [e], clock + 1) && forall x :: x in l ==> x.added < e.added
  {
    hide Stamped;
    StampedPast(l, clock);
    e.cached, e.hash, e.added, e.used := true, hash, clock, clock;
    StampedAdd(l, clock, e);
  }

  // ---------- bucket circles ----------

  ghost predicate BktTied(a: Node, b: Node)
    reads a`bktNext, b`bktPrev
  {
    a.bktNext == b && b.bktPrev == a
  }

  ghost predicate BktLinked(r: seq<Node>)
    reads r`bktNext, r`bktPrev
  {
    forall i :: 0 <= i < |r| - 1 ==> BktTied(r[i], r[i + 1])
  }

  /** The entries of a bucket form a circle without a head node. */
  ghost predicate Circle(b: seq<Node>)
    reads b`bktNext, b`bktPrev
  {
    Distinct(b) && (b != [] ==> BktLinked(b + [b[0]]))
  }

  ghost function HeadOf(b: seq<Node>): Node? {
    if b == [] then null else b[0]
  }

  /** The bucket part of mruc_add: the new entry goes in front of the head, which is the end of the circle. */
  method BktAppend(head: Node?, e: Node, ghost b: seq<Node>) returns (head': Node)
    requires Circle(b) && head == HeadOf(b) && e !in b
    modifies e`bktNext, e`bktPrev, b`bktNext, b`bktPrev
    ensures Circle(b + [e]) && head' == HeadOf(b + [e])
  {
    DistinctAppend(b, e);
    if head != null {
      ghost var r := b + [b[0]];
      assert BktTied(r[|b| - 1], r[|b|]);
      e.bktNext := head;
      e.bktPrev := head.bktPrev;
      head.bktPrev.bktNext := e;
      head.bktPrev := e;
      head' := head;
      ghost var r' := b + [e] + [b[0]];
      assert (b + [e])[0] == b[0];
      forall i | 0 <= i < |r'| - 1
        ensures BktTied(r'[i], r'[i + 1])
      {
        if i < |b| - 1 {
          assert r'[i] == r[i] && r'[i + 1] == r[i + 1];
        }
      }
    } else {
      e.bktNext := e;
      e.bktPrev := e;
      head' := e;
      assert b + [e] == [e];
    }
  }

  /** The bucket part of mruc_remove. */
  method BktRemove(head: Node?, e: Node, ghost b: seq<Node>, ghost k: nat) returns (head': Node?)
    requires Circle(b) && head == HeadOf(b) && k < |b| && b[k] == e
    modifies b`bktNext, b`bktPrev
    ensures Circle(b[..k] + b[k + 1..]) && head' == HeadOf(b[..k] + b[k + 1..])
    ensures e.bktNext == null && e.bktPrev == null
  {
    DistinctRemove(b, k);
    ghost var r := b + [b[0]];
    ghost var b' := b[..k] + b[k + 1..];
    assert BktTied(r[k], r[k + 1]);
    if e.bktNext == e {
      assert |b| == 1 && b' == [];
      head' := null;
    } else {
      ghost var p := if k == 0 then |b| - 1 else k - 1;
      assert BktTied(r[p], r[p + 1]);
      assert BktTied(r[|b| - 1], r[|b|]);
      e.bktNext.bktPrev := e.bktPrev;
      e.bktPrev.bktNext := e.bktNext;
      head' := if head == e then e.bktNext else head;
      ghost var r' := b' + [b'[0]];
      forall i | 0 <= i < |r'| - 1
        ensures BktTied(r'[i], r'[i + 1])
      {
        if k > 0 && i < k - 1 {
          assert r'[i] == r[i] && r'[i + 1] == r[i + 1];
        } else if i >= k && i + 1 < |b'| {
          assert r'[i] == r[i + 1] && r'[i + 1] == r[i + 2];
        } else if k > 0 && i == k - 1 {
          assert r'[i] == r[k - 1] && r'[i + 1] == r[k + 1];
        } else if k == 0 {
          assert r'[i] == r[|b| - 1] && r'[i + 1] == r[1];
        } else {
          assert r'[i] == r[|b| - 1] && r'[i + 1] == r[|b|];
        }
      }
    }
    e.bktNext := null;
    e.bktPrev := null;
  }

  // ---------- the table ----------

  /** Every entry of the pool is in exactly the bucket its hash selects, and buckets keep the order of addition. */
  ghost predicate Placed(buckets: seq<seq<Node>>, pool: set<Node>)
    reads pool`hash, pool`added
  {
    && |buckets| > 0
    && (forall b, i :: 0 <= b < |buckets| && 0 <= i < |buckets[b]| ==>
          buckets[b][i] in pool && buckets[b][i].hash % |buckets| == b)
    && (forall b, i, j :: 0 <= b < |buckets| && 0 <= i < j < |buckets[b]| ==> buckets[b][i].added < buckets[b][j].added)
    && (forall e :: e in pool ==> e in buckets[e.hash % |buckets|])
  }

  /** Every bucket is a circle that its table slot points into. */
  ghost predicate Circled(heads: seq<Node?>, buckets: seq<seq<Node>>, pool: set<Node>)
    reads pool`bktNext, pool`bktPrev
  {
    && |heads| == |buckets|
    && (forall b, i :: 0 <= b < |buckets| && 0 <= i < |buckets[b]| ==> buckets[b][i] in pool)
    && (forall b :: 0 <= b < |buckets| ==> Circle(buckets[b]) && heads[b] == HeadOf(buckets[b]))
  }

  /** One bucket has been changed, and the others are still circles. */
  lemma CircledAgain(heads: seq<Node?>, buckets: seq<seq<Node>>, b: nat, head: Node?, bucket: seq<Node>,
                     pool: set<Node>)
    requires |heads| == |buckets| && b < |buckets| && Placed(buckets[b := bucket], pool)
    requires Circle(bucket) && head == HeadOf(bucket)
    requires forall c :: 0 <= c < |buckets| && c != b ==> Circle(buckets[c]) && heads[c] == HeadOf(buckets[c])
    ensures Circled(heads[b := head], buckets[b := bucket], pool)
  {
    PlacedInside(buckets[b := bucket], pool);
  }

  lemma PlacedAdd(buckets: seq<seq<Node>>, pool: set<Node>, e: Node, b: nat)
    requires Placed(buckets, pool) && e !in pool && b == e.hash % |buckets|
    requires forall x :: x in pool ==> x.added < e.added
    ensures Placed(buckets[b := buckets[b] + [e]], pool + {e})
  {
  }

  lemma PlacedRemove(buckets: seq<seq<Node>>, pool: set<Node>, b: nat, k: nat, cut: seq<Node>)
    requires Placed(buckets, pool) && b < |buckets| && k < |buckets[b]|
    requires cut == buckets[b][..k] + buckets[b][k + 1..]
    ensures Placed(buckets[b := cut], pool - {buckets[b][k]})
  {
  }

  lemma PlaceOf(buckets: seq<seq<Node>>, pool: set<Node>, e: Node) returns (b: nat, k: nat)
    requires Placed(buckets, pool) && e in pool
    ensures b == e.hash % |buckets| && k < |buckets[b]| && buckets[b][k] == e
  {
    b := e.hash % |buckets|;
    k :| 0 <= k < |buckets[b]| && buckets[b][k] == e;
  }

  lemma PlacedInside(buckets: seq<seq<Node>>, pool: set<Node>)
    requires Placed(buckets, pool)
    ensures forall b, i :: 0 <= b < |buckets| && 0 <= i < |buckets[b]| ==> buckets[b][i] in pool
  {
  }

  lemma BucketsApart(buckets: seq<seq<Node>>, pool: set<Node>, b: nat)
    requires Placed(buckets, pool) && b < |buckets|
    ensures forall c, i :: 0 <= c < |buckets| && c != b && 0 <= i < |buckets[c]| ==> buckets[c][i] !in buckets[b]
  {
  }

  /** The list is ordered by last use, and all stamps are in the past. */
  ghost predicate Stamped(lru: seq<Node>, clock: nat)
    reads lru`used, lru`added
  {
    && (forall i, j :: 0 <= i < j < |lru| ==> lru[i].used < lru[j].used)
    && (forall i :: 0 <= i < |lru| ==> lru[i].used < clock && lru[i].added < clock)
  }

  lemma StampedAdd(lru: seq<Node>, clock: nat, e: Node)
    requires Stamped(lru, clock) && e !in lru && e.used == clock && e.added <= clock
    ensures Stamped(lru + [e], clock + 1)
  {
  }

  lemma StampedRemove(lru: seq<Node>, clock: nat, k: nat)
    requires Stamped(lru, clock) && k < |lru|
    ensures Stamped(lru[..k] + lru[k + 1..], clock)
  {
  }

  lemma StampedBump(lru: seq<Node>, clock: nat, k: nat)
    requires Stamped(lru, clock) && k < |lru|
    ensures Stamped(lru[..k] + lru[k + 1..], clock) && lru[k].added < clock
  {
  }

  lemma StampedPast(lru: seq<Node>, clock: nat)
    requires Stamped(lru, clock)
    ensures forall e :: e in lru ==> e.added < clock
  {
  }

  ghost predicate Holds(lru: seq<Node>, pool: set<Node>) {
    (forall e :: e in lru ==> e in pool) && forall e :: e in pool ==> e in lru
  }

  lemma HoldsAdd(lru: seq<Node>, pool: set<Node>, e: Node)
    requires Holds(lru, pool)
    ensures Holds(lru + [e], pool + {e})
  {
  }

  lemma HoldsRemove(lru: seq<Node>, pool: set<Node>, k: nat)
    requires Holds(lru, pool) && Distinct(lru) && k < |lru|
    ensures lru[k] in pool
    ensures Holds(lru[..k] + lru[k + 1..], pool - {lru[k]}) && Holds(lru[..k] + lru[k + 1..] + [lru[k]], pool)
  {
  }

  // ---------- the cache as two plain lists ----------

  datatype Op = AddOp(e: Node, hash: nat) | BumpOp(e: Node) | RemoveOp(e: Node) | FlushOp | GetOp(hash: nat)

  /** The live entries by last use and by addition, and their hashes. */
  datatype Ideal = Ideal(lru: seq<Node>, order: seq<Node>, hash: map<Node, nat>)

  ghost function Without(s: seq<Node>, e: Node): seq<Node> {
    if s == [] then [] else if s[0] == e then Without(s[1..], e) else [s[0]] + Without(s[1..], e)
  }

  ghost function Drop(s: Ideal, e: Node): Ideal {
    Ideal(Without(s.lru, e), Without(s.order, e), s.hash)
  }

  ghost function Do(s: Ideal, op: Op, csize: nat): Ideal {
    match op
    case AddOp(e, h) =>
      var t := if |s.lru| < csize || s.lru == [] then s else Drop(s, s.lru[0]);
      Ideal(t.lru + [e], t.order + [e], t.hash[e := h])
    case BumpOp(e) => s.(lru := Without(s.lru, e) + [e])
    case RemoveOp(e) => Drop(s, e)
    case FlushOp => Ideal([], [], s.hash)
    case GetOp(_) => s
  }

  ghost function DoAll(s: Ideal, ops: seq<Op>, csize: nat): Ideal {
    if ops == [] then s else Do(DoAll(s, ops[..|ops| - 1], csize), ops[|ops| - 1], csize)
  }

  /** What the callers owe: only absent entries are added, only live ones bumped or removed. */
  ghost predicate Legal(s: Ideal, op: Op) {
    match op
    case AddOp(e, _) => e !in s.lru
    case BumpOp(e) => e in s.lru
    case RemoveOp(e) => e in s.lru
    case FlushOp => true
    case GetOp(_) => true
  }

  /** The first entry in order of addition with this hash. */
  ghost function Lookup(order: seq<Node>, hash: map<Node, nat>, h: nat): Node? {
    if order == [] then null
    else if order[0] in hash && hash[order[0]] == h then order[0]
    else Lookup(order[1..], hash, h)
  }

  /** What an operation returns: only a lookup returns an entry. */
  ghost function Answer(s: Ideal, op: Op): Node? {
    if op.GetOp? then Lookup(s.order, s.hash, op.hash) else null
  }

  ghost predicate AllLegal(s: Ideal, ops: seq<Op>, csize: nat) {
    forall i :: 0 <= i < |ops| ==> Legal(DoAll(s, ops[..i], csize), ops[i])
  }

  /** The entries an operation names are among `all`. */
  ghost predicate Names(op: Op, all: set<Node>) {
    op.AddOp? || op.BumpOp? || op.RemoveOp? ==> op.e in all
  }

  lemma {:induction false} WithoutAbsent(s: seq<Node>, e: Node)
    requires e !in s
    ensures Without(s, e) == s
  {
    if s != [] {
      WithoutAbsent(s[1..], e);
    }
  }

  lemma {:induction false} WithoutAt(s: seq<Node>, k: nat)
    requires Distinct(s) && k < |s|
    ensures Without(s, s[k]) == s[..k] + s[k + 1..]
  {
    if k == 0 {
      WithoutAbsent(s[1..], s[0]);
    } else {
      WithoutAt(s[1..], k - 1);
      assert s[1..][..k - 1] == s[1..k] && s[1..][k..] == s[k + 1..];
    }
  }

  ghost predicate Sorted(order: seq<Node>)
    reads order`added
  {
    forall i, j :: 0 <= i < j < |order| ==> order[i].added < order[j].added
  }

  ghost predicate SameMembers(a: seq<Node>, b: seq<Node>) {
    (forall e :: e in a ==> e in b) && (forall e :: e in b ==> e in a)
  }

  lemma SortedDistinct(order: seq<Node>)
    requires Sorted(order)
    ensures Distinct(order)
  {
  }

  lemma SortedWithout(order: seq<Node>, e: Node)
    requires Sorted(order) && e in order
    ensures Sorted(Without(order, e))
    ensures forall x :: x in Without(order, e) <==> x in order && x != e
  {
    var k :| 0 <= k < |order| && order[k] == e;
    SortedDistinct(order);
    WithoutAt(order, k);
    SortedCut(order, k);
    MembersLeft(order, k);
  }

  lemma SortedCut(order: seq<Node>, k: nat)
    requires Sorted(order) && k < |order|
    ensures Sorted(order[..k] + order[k + 1..])
  {
  }

  lemma {:induction false} LookupEarliest(order: seq<Node>, hash: map<Node, nat>, h: nat, k: nat)
    requires k < |order| && order[k] in hash && hash[order[k]] == h
    requires forall i :: 0 <= i < k ==> order[i] in hash && hash[order[i]] != h
    ensures Lookup(order, hash, h) == order[k]
  {
    if k > 0 {
      LookupEarliest(order[1..], hash, h, k - 1);
    }
  }

  lemma {:induction false} LookupNone(order: seq<Node>, hash: map<Node, nat>, h: nat)
    requires forall i :: 0 <= i < |order| ==> order[i] in hash && hash[order[i]] != h
    ensures Lookup(order, hash, h) == null
  {
    if order != [] {
      LookupNone(order[1..], hash, h);
    }
  }

  /** The cache with this LRU list is the ideal state `s`. */
  ghost predicate Agree(lru: seq<Node>, s: Ideal)
    reads lru`hash, lru`added, s.order`added
  {
    && lru == s.lru && SameMembers(lru, s.order) && Sorted(s.order)
    && forall e :: e in lru ==> e in s.hash && s.hash[e] == e.hash
  }

  lemma AgreeAdd(lru: seq<Node>, s: Ideal, e: Node)
    requires Agree(lru, s) && e !in lru && forall x :: x in lru ==> x.added < e.added
    ensures Agree(lru + [e], Ideal(s.lru + [e], s.order + [e], s.hash[e := e.hash]))
  {
  }

  lemma AgreeDrop(lru: seq<Node>, s: Ideal, k: nat)
    requires Agree(lru, s) && Distinct(lru) && k < |lru|
    ensures Agree(lru[..k] + lru[k + 1..], Drop(s, lru[k]))
  {
    MembersLeft(lru, k);
    WithoutAt(lru, k);
    SortedWithout(s.order, lru[k]);
    assert lru[..k] + lru[k + 1..] == Drop(s, lru[k]).lru;
    assert SameMembers(lru[..k] + lru[k + 1..], Without(s.order, lru[k]));
  }

  lemma AgreeMembers(lru: seq<Node>, s: Ideal)
    requires Agree(lru, s)
    ensures lru == s.lru && SameMembers(lru, s.order)
  {
  }

  lemma AgreeBump(lru: seq<Node>, s: Ideal, k: nat)
    requires Agree(lru, s) && Distinct(lru) && k < |lru|
    ensures Agree(lru[..k] + lru[k + 1..] + [lru[k]], s.(lru := Without(s.lru, lru[k]) + [lru[k]]))
  {
    MembersLeft(lru, k);
    WithoutAt(lru, k);
    var l := lru[..k] + lru[k + 1..] + [lru[k]];
    assert l[|lru| - 1] == lru[k];
  }

  lemma AgreeAdded(lru: seq<Node>, s: Ideal, e: Node, csize: nat)
    requires Agree(lru, s) && Distinct(lru) && 0 < csize && |lru| <= csize
    requires e !in lru && forall x :: x in lru ==> x.added < e.added
    ensures Agree((if |lru| < csize then lru else lru[1..]) + [e], Do(s, AddOp(e, e.hash), csize))
  {
    if |lru| == csize {
      AgreeDrop(lru, s, 0);
      assert lru[..0] + lru[1..] == lru[1..];
      AgreeAdd(lru[1..], Drop(s, s.lru[0]), e);
    } else {
      AgreeAdd(lru, s, e);
    }
  }

  lemma AgreeEmpty(lru: seq<Node>, s: Ideal, csize: nat)
    requires lru == []
    ensures Agree(lru, Do(s, FlushOp, csize))
  {
  }

  lemma MembersLeft(l: seq<Node>, k: nat)
    requires Distinct(l) && k < |l|
    ensures forall e :: e in l[..k] + l[k + 1..] <==> e in l && e != l[k]
  {
    assert l == l[..k] + [l[k]] + l[k + 1..];
  }

  lemma RingDistinct(h: Node, l: seq<Node>)
    requires Ring(h, l)
    ensures Distinct(l)
  {
    assert forall i :: 0 <= i < |l| ==> l[i] == ([h] + l)[i + 1];
  }

  /** mruc_get's answer is the first entry in order of addition with that hash. */
  lemma GetMeans(lru: seq<Node>, s: Ideal, h: nat, e: Node?)
    requires Agree(lru, s)
    requires e == null ==> forall i :: 0 <= i < |lru| ==> lru[i].hash != h
    requires e != null ==> e in lru && e.hash == h
    requires e != null ==> forall i :: 0 <= i < |lru| && lru[i].hash == h ==> e.added <= lru[i].added
    ensures e == Lookup(s.order, s.hash, h)
  {
    if e == null {
      forall i | 0 <= i < |s.order|
        ensures s.order[i] in s.hash && s.hash[s.order[i]] != h
      {
        assert s.order[i] in lru;
      }
      LookupNone(s.order, s.hash, h);
    } else {
      var k :| 0 <= k < |s.order| && s.order[k] == e;
      forall i | 0 <= i < k
        ensures s.order[i] in s.hash && s.hash[s.order[i]] != h
      {
        assert s.order[i] in lru && s.order[i].added < s.order[k].added;
      }
      LookupEarliest(s.order, s.hash, h, k);
    }
  }

  class Cache {
    const table: array<Node?>
    const csize: nat
    var count: nat
    /** The head node of the LRU list. */
    const mrul: Node

    /** The entries, least recently used first, and as a set; the buckets in order of addition; the time. */
    ghost var lru: seq<Node>
    ghost var pool: set<Node>
    ghost var buckets: seq<seq<Node>>
    ghost var clock: nat

    ghost predicate Inv()
      reads this, table, mrul`next, mrul`prev, lru, pool
    {
      && csize > 0 && table.Length > 0 && count == |lru|
      && Ring(mrul, lru)
      && Holds(lru, pool) && Placed(buckets, pool) && Circled(table[..], buckets, pool)
      && Stamped(lru, clock)
    }

    ghost predicate Valid()
      reads this, table, mrul`next, mrul`prev, lru, pool
    {
      Inv() && count <= csize
    }

    /** mruc_create. */
    constructor (csize: nat, table: array<Node?>)
      requires csize > 0 && table.Length > 0
      modifies table
      ensures Valid() && lru == [] && this.csize == csize && this.table == table && fresh(mrul)
    {
      this.csize, this.table, count := csize, table, 0;
      var h := new Node();
      mrul := h;
      lru, pool, buckets, clock := [], {}, seq(table.Length, _ => []), 0;
      new;
      forall b | 0 <= b < table.Length {
        table[b] := null;
      }
      h.next := h;
      h.prev := h;
      assert [h] + [] + [h] == [h, h];
    }

    /** mruc_get: the earliest added entry with this hash. */
    method Get(hash: nat) returns (e: Node?)
      requires Inv()
      ensures e == null ==> forall i :: 0 <= i < |lru| ==> lru[i].hash != hash
      ensures e != null ==> e in lru && e.hash == hash
      ensures e != null ==> forall i :: 0 <= i < |lru| && lru[i].hash == hash ==> e.added <= lru[i].added
    {
      var b := hash % table.Length;
      var bkt := table[b];
      ghost var bs := buckets[b];
      assert table[..][b] == bkt;
      e := bkt;
      if e == null {
        forall i | 0 <= i < |lru|
          ensures lru[i].hash != hash
        {
          assert lru[i] in pool;
        }
        return;
      }
      ghost var i := 0;
      ghost var r := bs + [bs[0]];
      while e.hash != hash
        invariant 0 <= i < |bs| && e == bs[i]
        invariant forall j :: 0 <= j < i ==> bs[j].hash != hash
        decreases |bs| - i
      {
        assert BktTied(r[i], r[i + 1]);
        e := e.bktNext;
        i := i + 1;
        if e == bkt {
          assert i == |bs|;
          forall k | 0 <= k < |lru|
            ensures lru[k].hash != hash
          {
            assert lru[k] in pool;
          }
          return null;
        }
      }
      forall k | 0 <= k < |lru| && lru[k].hash == hash
        ensures e.added <= lru[k].added
      {
        assert lru[k] in pool;
        var j :| 0 <= j < |bs| && bs[j] == lru[k];
      }
    }

    /** The new entry goes to the end of its bucket. */
    method Hook(entry: Node)
      requires table.Length > 0
      requires Placed(buckets, pool) && Circled(table[..], buckets, pool) && entry !in pool
      requires forall e :: e in pool ==> e.added < entry.added
      modifies `buckets, `pool, table, entry`bktNext, entry`bktPrev, pool`bktNext, pool`bktPrev
      ensures Placed(buckets, pool) && Circled(table[..], buckets, pool) && pool == old(pool) + {entry}
    {
      hide Placed, Circle;
      var b := entry.hash % table.Length;
      ghost var heads, before := table[..], buckets;
      PlacedAdd(buckets, pool, entry, b);
      BucketsApart(buckets, pool, b);
      var head := BktAppend(table[b], entry, buckets[b]);
      table[b] := head;
      buckets, pool := buckets[b := buckets[b] + [entry]], pool + {entry};
      assert table[..] == heads[b := head];
      assert forall c :: 0 <= c < |before| && c != b ==> Circle(before[c]) && heads[c] == HeadOf(before[c]);
    }

    /** mruc_add down to the linking into the bucket. */
    method HashIn(entry: Node, hash: nat)
      requires table.Length > 0 && entry !in pool && Holds(lru, pool) && Stamped(lru, clock)
      requires Placed(buckets, pool) && Circled(table[..], buckets, pool)
      modifies `buckets, `pool, table, entry, pool`bktNext, pool`bktPrev
      ensures Placed(buckets, pool) && Circled(table[..], buckets, pool) && pool == old(pool) + {entry}
      ensures Holds(lru + [entry], pool) && Stamped(lru + [entry], clock + 1)
      ensures entry.cached && entry.hash == hash && entry.added == clock == entry.used
    {
      hide Placed, Circled, Stamped;
      Prepare(entry, hash, lru, clock);
      HoldsAdd(lru, pool, entry);
      Hook(entry);
    }

    /** The bucket half of mruc_remove. */
    method HashOut(entry: Node)
      requires table.Length > 0
      requires Placed(buckets, pool) && Circled(table[..], buckets, pool) && entry in pool
      modifies `buckets, `pool, table, pool`bktNext, pool`bktPrev, entry`cached
      ensures Placed(buckets, pool) && Circled(table[..], buckets, pool) && pool == old(pool) - {entry}
      ensures entry.bktNext == null && entry.bktPrev == null && !entry.cached
    {
      hide Placed, Circle, HeadOf;
      entry.cached := false;
      var b := entry.hash % table.Length;
      ghost var heads, before := table[..], buckets;
      ghost var b', k := PlaceOf(buckets, pool, entry);
      PlacedRemove(buckets, pool, b, k, buckets[b][..k] + buckets[b][k + 1..]);
      BucketsApart(buckets, pool, b);
      var head := BktRemove(table[b], entry, buckets[b], k);
      table[b] := head;
      buckets, pool := buckets[b := buckets[b][..k] + buckets[b][k + 1..]], pool - {entry};
      assert table[..] == heads[b := head];
      CircledAgain(heads, before, b, head, before[b][..k] + before[b][k + 1..], pool);
    }

    /** mruc_add up to the test of the count. */
    method Insert(entry: Node, hash: nat)
      requires Inv() && entry !in pool && entry != mrul
      modifies this, table, mrul`next, mrul`prev, entry, lru`next, pool`bktNext, pool`bktPrev
      ensures Inv() && lru == old(lru) + [entry] && clock == old(clock) + 1
      ensures entry.cached && entry.hash == hash && entry.added == old(clock) == entry.used
      ensures pool == old(pool) + {entry}
    {
      hide Placed, Circled, Linked, Distinct, Ring, Stamped;
      HashIn(entry, hash);
      assert Ring(mrul, lru);
      AddEnd(mrul, entry, lru);
      assert Placed(buckets, pool) && Circled(table[..], buckets, pool);
      lru, count, clock := lru + [entry], count + 1, clock + 1;
    }

    /** mruc_remove. */
    method Remove(entry: Node, ghost k: nat)
      requires Inv() && k < |lru| && lru[k] == entry
      modifies this, table, mrul`next, mrul`prev, lru`next, lru`prev, pool`bktNext, pool`bktPrev, entry`cached
      ensures Inv() && lru == old(lru[..k] + lru[k + 1..]) && clock == old(clock)
      ensures !entry.cached && entry.next == null && entry.bktNext == null
      ensures pool == old(pool) - {entry}
    {
      hide Placed, Circled, Linked, Distinct, Ring, Stamped, Holds;
      RingDistinct(mrul, lru);
      HoldsRemove(lru, pool, k);
      StampedRemove(lru, clock, k);
      Unlink(entry, mrul, lru, k);
      assert Placed(buckets, pool) && Circled(table[..], buckets, pool);
      HashOut(entry);
      lru, count := lru[..k] + lru[k + 1..], count - 1;
    }

    /** mruc_bump. */
    method Bump(entry: Node, ghost k: nat)
      requires Inv() && k < |lru| && lru[k] == entry
      modifies `lru, `clock, mrul`next, mrul`prev, lru`next, lru`prev, entry`used
      ensures Inv() && lru == old(lru[..k] + lru[k + 1..]) + [entry] && clock == old(clock) + 1
      ensures entry.used == old(clock)
    {
      hide Placed, Circled, Linked, Distinct, Ring, Stamped, Holds;
      RingDistinct(mrul, lru);
      HoldsRemove(lru, pool, k);
      MoveToEnd(mrul, entry, lru, k, clock);
      lru, clock := lru[..k] + lru[k + 1..] + [entry], clock + 1;
    }

    /** mruc_add, with an evictor that removes the entry it is given. */
    method Add(entry: Node, hash: nat)
      requires Valid() && entry !in pool && entry != mrul
      modifies this, table, mrul`next, mrul`prev, entry
      modifies lru`next, lru`prev, pool`bktNext, pool`bktPrev, pool`cached
      ensures Valid() && lru == (if |old(lru)| < csize then old(lru) else old(lru)[1..]) + [entry]
      ensures entry.cached && entry.hash == hash && entry.added == old(clock) == entry.used && clock == old(clock) + 1
      ensures |old(lru)| == csize ==> !old(lru)[0].cached
    {
      hide Placed, Circled, Linked, Distinct, Ring, Stamped;
      ghost var was := lru;
      Insert(entry, hash);
      if count > csize {
        var victim := First(mrul, lru);
        Remove(victim, 0);
        assert (was + [entry])[..0] + (was + [entry])[1..] == was[1..] + [entry];
      }
    }

    /** mruc_flush, with an evictor that removes the entry it is given. */
    method Flush()
      requires Valid()
      modifies this, table, mrul`next, mrul`prev, pool
      ensures Valid() && lru == [] && clock == old(clock)
    {
      hide Placed, Circled, Linked, Distinct, Ring, Stamped;
      var entry := First(mrul, lru);
      while entry != null
        invariant Valid() && clock == old(clock)
        invariant pool <= old(pool)
        invariant if lru == [] then entry == null else entry == lru[0]
        decreases |lru|
      {
        Remove(entry, 0);
        entry := First(mrul, lru);
      }
    }

    /** One call of the interface. */
    method Step(op: Op, ghost s: Ideal, ghost all: set<Node>) returns (answer: Node?)
      requires Valid() && Agree(lru, s) && Legal(s, op) && Names(op, all)
      requires mrul !in all && forall e :: e in lru ==> e in all
      modifies this, table, mrul`next, mrul`prev, all
      ensures Valid() && Agree(lru, Do(s, op, csize)) && answer == Answer(s, op)
      ensures forall e :: e in lru ==> e in all
    {
      hide Placed, Circled, Linked, Distinct, Ring, Stamped, Lookup, Without, Agree;
      ghost var was := lru;
      answer := null;
      AgreeMembers(lru, s);
      RingDistinct(mrul, lru);
      match op
      case AddOp(e, h) =>
        StampedPast(lru, clock);
        Add(e, h);
        assert Agree(was, s);
        AgreeAdded(was, s, e, csize);
      case BumpOp(e) =>
        ghost var k :| 0 <= k < |lru| && lru[k] == e;
        Bump(e, k);
        AgreeBump(was, s, k);
      case RemoveOp(e) =>
        ghost var k :| 0 <= k < |lru| && lru[k] == e;
        Remove(e, k);
        AgreeDrop(was, s, k);
      case FlushOp =>
        Flush();
        AgreeEmpty(lru, s, csize);
      case GetOp(h) =>
        answer := Get(h);
        GetMeans(lru, s, h, answer);
    }

    /** Over every run the cache is the ideal one: same order of use, same answers. */
    method Run(ops: seq<Op>, ghost s: Ideal, ghost all: set<Node>) returns (answers: seq<Node?>)
      requires Valid() && Agree(lru, s) && AllLegal(s, ops, csize)
      requires forall i :: 0 <= i < |ops| ==> Names(ops[i], all)
      requires mrul !in all && forall e :: e in lru ==> e in all
      modifies this, table, mrul`next, mrul`prev, all
      ensures Valid() && Agree(lru, DoAll(s, ops, csize)) && |answers| == |ops|
      ensures forall i :: 0 <= i < |ops| ==> answers[i] == Answer(DoAll(s, ops[..i], csize), ops[i])
    {
      hide Placed, Circled, Linked, Distinct, Ring, Stamped, Agree, Do, Legal, Inv, Names, Answer;
      answers := [];
      var i := 0;
      while i < |ops|
        invariant 0 <= i <= |ops| && |answers| == i
        invariant Valid() && Agree(lru, DoAll(s, ops[..i], csize))
        invariant forall e :: e in lru ==> e in all
        invariant forall j :: 0 <= j < i ==> answers[j] == Answer(DoAll(s, ops[..j], csize), ops[j])
      {
        assert ops[..i + 1][..i] == ops[..i];
        var answer := Step(ops[i], DoAll(s, ops[..i], csize), all);
        answers := answers + [answer];
        i := i + 1;
      }
      assert ops[..i] == ops;
    }
  }
}
