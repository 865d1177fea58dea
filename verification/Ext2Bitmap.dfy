/**
 The ext2 block and inode allocators (fs/ext2/blkmgr.c, fs/ext2/inomgr.c): free
 counts in the superblock and in every group descriptor, and one bitmap per
 group that is scanned word by word.
 */
module Ext2Bitmap {
  import opened Arith
  import opened Options

  /** A group descriptor's free count and the bits of its bitmap; a set bit is an id in use. */
  datatype Group = Group(free: nat, bits: seq<bool>)

  // ---------- counting clear bits ----------

  function Clear(bits: seq<bool>): nat {
    if bits == [] then 0 else Clear(bits[..|bits| - 1]) + if bits[|bits| - 1] then 0 else 1
  }

  lemma {:induction false} ClearUpdate(bits: seq<bool>, p: nat, b: bool)
    requires p < |bits| && bits[p] != b
    ensures Clear(bits[p := b]) == if b then Clear(bits) - 1 else Clear(bits) + 1
    ensures b ==> Clear(bits) > 0
  {
    var n := |bits| - 1;
    if p == n {
      assert bits[p := b][..n] == bits[..n];
    } else {
      ClearUpdate(bits[..n], p, b);
      assert bits[p := b][..n] == bits[..n][p := b];
    }
  }

  lemma {:induction false} ClearZero(bits: seq<bool>)
    ensures Clear(bits) == 0 <==> forall p :: 0 <= p < |bits| ==> bits[p]
  {
    if bits != [] {
      var n := |bits| - 1;
      ClearZero(bits[..n]);
      assert forall p :: 0 <= p < n ==> bits[..n][p] == bits[p];
    }
  }

  function FreeSum(groups: seq<Group>): nat {
    if groups == [] then 0 else FreeSum(groups[..|groups| - 1]) + groups[|groups| - 1].free
  }

  lemma {:induction false} FreeSumUpdate(groups: seq<Group>, g: nat, x: Group)
    requires g < |groups|
    ensures FreeSum(groups[g := x]) + groups[g].free == FreeSum(groups) + x.free
  {
    var n := |groups| - 1;
    if g == n {
      assert groups[g := x][..n] == groups[..n];
    } else {
      FreeSumUpdate(groups[..n], g, x);
      assert groups[g := x][..n] == groups[..n][g := x];
    }
  }

  // ---------- the scan, as a function ----------

  /** The first clear bit at or after `from`, or the length. */
  function FirstClear(bits: seq<bool>, from: nat): (p: nat)
    requires from <= |bits|
    ensures from <= p <= |bits|
    ensures p < |bits| ==> !bits[p]
    ensures forall q :: from <= q < p ==> bits[q]
    decreases |bits| - from
  {
    if from == |bits| || !bits[from] then from else FirstClear(bits, from + 1)
  }

  /** A hit at bit `p` of group `g`, or the bit position the scan is left at after the last group. */
  datatype Scan = Hit(g: nat, p: nat) | Miss(p: nat)

  /**
   One pass over the groups from `g`, starting at bit `p` there. A group whose
   descriptor says it is full is skipped; the skip resets the bitmap number but
   not the word and bit numbers, so the next group is entered at `p % perMap`.
   */
  function ScanGroups(groups: seq<Group>, perMap: nat, g: nat, p: nat): (s: Scan)
    requires perMap > 0 && g <= |groups|
    requires forall i :: 0 <= i < |groups| ==> perMap <= |groups[i].bits|
    requires g < |groups| ==> p <= |groups[g].bits|
    ensures s.Hit? ==> g <= s.g < |groups| && s.p < |groups[s.g].bits| && !groups[s.g].bits[s.p]
    ensures s.Miss? ==> s.p <= p
    decreases |groups| - g
  {
    if g == |groups| then Miss(p)
    else if groups[g].free == 0 then
      ScanGroups(groups, perMap, g + 1, p % perMap)
    else
      var q := FirstClear(groups[g].bits, p);
      if q < |groups[g].bits| then Hit(g, q) else ScanGroups(groups, perMap, g + 1, 0)
  }

  /** ext2_alloc_block's two passes: from the start position, then from group 0. */
  function ScanTwice(groups: seq<Group>, perMap: nat, g: nat, p: nat): (s: Scan)
    requires perMap > 0 && g <= |groups|
    requires forall i :: 0 <= i < |groups| ==> perMap <= |groups[i].bits|
    requires g < |groups| ==> p <= |groups[g].bits|
    requires |groups| > 0 ==> p <= |groups[0].bits|
    ensures s.Hit? ==> s.g < |groups| && s.p < |groups[s.g].bits| && !groups[s.g].bits[s.p]
  {
    match ScanGroups(groups, perMap, g, p)
    case Hit(g', p') => Hit(g', p')
    case Miss(p') => ScanGroups(groups, perMap, 0, p')
  }

  ghost predicate Counted(groups: seq<Group>) {
    forall i :: 0 <= i < |groups| ==> groups[i].free == Clear(groups[i].bits)
  }

  ghost predicate AnyClear(groups: seq<Group>) {
    exists g, p :: 0 <= g < |groups| && 0 <= p < |groups[g].bits| && !groups[g].bits[p]
  }

  /** No clear bit in groups g, g+1, ... */
  ghost predicate FullFrom(groups: seq<Group>, g: nat) {
    forall i :: g <= i < |groups| ==> groups[i].free == 0
  }

  /** Where a pass that starts at bit `p` of group `g` enters group `f`, if all groups before `f` are full. */
  function Entry(perMap: nat, g: nat, p: nat, f: nat): nat
    requires perMap > 0
  {
    if f == g then p else p % perMap
  }

  /** Group `f` is the only one from `g` on that is not full, and its clear bits all lie before the entry position. */
  ghost predicate OverlookedIn(groups: seq<Group>, perMap: nat, g: nat, p: nat, f: nat)
    requires perMap > 0 && f < |groups|
  {
    && (forall i :: g <= i < |groups| && i != f ==> groups[i].free == 0)
    && groups[f].free > 0
    && (forall q :: Entry(perMap, g, p, f) <= q < |groups[f].bits| ==> groups[f].bits[q])
  }

  ghost predicate Overlooked(groups: seq<Group>, perMap: nat, g: nat, p: nat)
    requires perMap > 0
  {
    exists f :: g <= f < |groups| && OverlookedIn(groups, perMap, g, p, f)
  }

  lemma {:induction false} MissFromStart(groups: seq<Group>, perMap: nat, g: nat)
    requires perMap > 0 && g <= |groups| && Counted(groups)
    requires forall i :: 0 <= i < |groups| ==> perMap <= |groups[i].bits|
    ensures ScanGroups(groups, perMap, g, 0).Miss? <==> FullFrom(groups, g)
    ensures ScanGroups(groups, perMap, g, 0).Miss? ==> ScanGroups(groups, perMap, g, 0).p == 0
    decreases |groups| - g
  {
    if g < |groups| {
      MissFromStart(groups, perMap, g + 1);
      ClearZero(groups[g].bits);
    }
  }

  /** Skipping a full group does not change what is overlooked. */
  lemma OverlookedSkip(groups: seq<Group>, perMap: nat, g: nat, p: nat)
    requires perMap > 0 && g < |groups| && groups[g].free == 0
    ensures Overlooked(groups, perMap, g, p) <==> Overlooked(groups, perMap, g + 1, p % perMap)
  {
    var m := p % perMap;
    assert m % perMap == m;
    forall f | g + 1 <= f < |groups|
      ensures OverlookedIn(groups, perMap, g, p, f) == OverlookedIn(groups, perMap, g + 1, m, f)
    {
      assert Entry(perMap, g, p, f) == Entry(perMap, g + 1, m, f);
    }
    if Overlooked(groups, perMap, g, p) {
      var f :| g <= f < |groups| && OverlookedIn(groups, perMap, g, p, f);
      assert OverlookedIn(groups, perMap, g + 1, m, f);
    }
    if Overlooked(groups, perMap, g + 1, m) {
      var f :| g + 1 <= f < |groups| && OverlookedIn(groups, perMap, g + 1, m, f);
      assert OverlookedIn(groups, perMap, g, p, f);
    }
  }

  /** In a group that is not full the pass misses what is in front of `p`, and nothing later. */
  lemma OverlookedHere(groups: seq<Group>, perMap: nat, g: nat, p: nat)
    requires perMap > 0 && g < |groups| && groups[g].free > 0 && p <= |groups[g].bits|
    ensures Overlooked(groups, perMap, g, p) <==>
      FirstClear(groups[g].bits, p) == |groups[g].bits| && FullFrom(groups, g + 1)
  {
    if FirstClear(groups[g].bits, p) == |groups[g].bits| && FullFrom(groups, g + 1) {
      assert OverlookedIn(groups, perMap, g, p, g);
    }
  }

  /** Exactly when one pass misses, and where it leaves the position. */
  lemma {:induction false} MissAt(groups: seq<Group>, perMap: nat, g: nat, p: nat)
    requires perMap > 0 && g <= |groups| && Counted(groups)
    requires forall i :: 0 <= i < |groups| ==> perMap <= |groups[i].bits|
    requires g < |groups| ==> p <= |groups[g].bits|
    ensures ScanGroups(groups, perMap, g, p).Miss? <==> FullFrom(groups, g) || Overlooked(groups, perMap, g, p)
    ensures g < |groups| && FullFrom(groups, g) ==> ScanGroups(groups, perMap, g, p) == Miss(p % perMap)
    decreases |groups| - g
  {
    hide Overlooked, Counted, OverlookedIn;
    if g == |groups| {
      assert FullFrom(groups, g);
    } else if groups[g].free == 0 {
      var m := p % perMap;
      assert m % perMap == m;
      MissAt(groups, perMap, g + 1, m);
      OverlookedSkip(groups, perMap, g, p);
    } else {
      MissFromStart(groups, perMap, g + 1);
      OverlookedHere(groups, perMap, g, p);
    }
  }

  /** A pass that looked into some group leaves the position at 0. */
  lemma {:induction false} MissLeaves(groups: seq<Group>, perMap: nat, g: nat, p: nat)
    requires perMap > 0 && g <= |groups| && Counted(groups)
    requires forall i :: 0 <= i < |groups| ==> perMap <= |groups[i].bits|
    requires g < |groups| ==> p <= |groups[g].bits|
    ensures ScanGroups(groups, perMap, g, p).Miss? && !FullFrom(groups, g) ==> ScanGroups(groups, perMap, g, p).p == 0
    decreases |groups| - g
  {
    hide Counted;
    if g < |groups| {
      if groups[g].free == 0 {
        MissLeaves(groups, perMap, g + 1, p % perMap);
      } else {
        MissFromStart(groups, perMap, g + 1);
      }
    }
  }

  /**
   When ext2_alloc_block reports ENOSPC: either nothing is free, or no group from
   the start group on has a free block and the only group that has any has it in
   front of the start position's offset within its bitmap.
   */
  lemma EnospcExactly(groups: seq<Group>, perMap: nat, g: nat, p: nat)
    requires perMap > 0 && g < |groups| && Counted(groups)
    requires forall i :: 0 <= i < |groups| ==> perMap <= |groups[i].bits|
    requires p <= |groups[g].bits| && p <= |groups[0].bits|
    ensures ScanTwice(groups, perMap, g, p).Miss? <==>
      FullFrom(groups, 0) || (FullFrom(groups, g) && Overlooked(groups, perMap, 0, p % perMap))
  {
    MissAt(groups, perMap, g, p);
    MissAt(groups, perMap, 0, p % perMap);
    MissFromStart(groups, perMap, 0);
    MissLeaves(groups, perMap, g, p);
  }

  /** Started at block 0 it reports ENOSPC exactly when nothing is free. */
  lemma EnospcFromZero(groups: seq<Group>, perMap: nat)
    requires perMap > 0 && 0 < |groups| && Counted(groups)
    requires forall i :: 0 <= i < |groups| ==> perMap <= |groups[i].bits|
    ensures ScanTwice(groups, perMap, 0, 0).Miss? <==> !AnyClear(groups)
  {
    MissFromStart(groups, perMap, 0);
    forall i | 0 <= i < |groups|
      ensures groups[i].free == 0 <==> forall q :: 0 <= q < |groups[i].bits| ==> groups[i].bits[q]
    {
      ClearZero(groups[i].bits);
    }
  }

  // ---------- which bit a scan hits ----------

  /** The first group from `g` on that is not full, or the number of groups. */
  ghost function FirstRoom(groups: seq<Group>, g: nat): (h: nat)
    requires g <= |groups|
    ensures g <= h <= |groups| && (forall i :: g <= i < h ==> groups[i].free == 0)
    ensures h < |groups| ==> groups[h].free > 0
    decreases |groups| - g
  {
    if g == |groups| || groups[g].free > 0 then g else FirstRoom(groups, g + 1)
  }

  /** Every bit from bit `m` of group `f` up to bit `q` of group `h` is set. */
  ghost predicate SetBetween(groups: seq<Group>, f: nat, m: nat, h: nat, q: nat) {
    forall i, x :: f <= i <= h && i < |groups| && 0 <= x < |groups[i].bits| && (i == f ==> x >= m) && (i == h ==> x < q)
      ==> groups[i].bits[x]
  }

  /** What a pass from the start of a group has passed over. */
  lemma {:induction false} StartFinds(groups: seq<Group>, perMap: nat, g: nat)
    requires perMap > 0 && g <= |groups| && Counted(groups)
    requires forall i :: 0 <= i < |groups| ==> perMap <= |groups[i].bits|
    ensures var r := ScanGroups(groups, perMap, g, 0);
      SetBetween(groups, g, 0, if r.Hit? then r.g else |groups|, if r.Hit? then r.p else 0)
    decreases |groups| - g
  {
    if g < |groups| {
      StartFinds(groups, perMap, g + 1);
      ClearZero(groups[g].bits);
    }
  }

  /** A pass enters the first group that is not full, and hits the first clear bit from its entry position on. */
  lemma {:induction false} PassFinds(groups: seq<Group>, perMap: nat, g: nat, p: nat)
    requires perMap > 0 && g <= |groups| && Counted(groups)
    requires forall i :: 0 <= i < |groups| ==> perMap <= |groups[i].bits|
    requires g < |groups| ==> p <= |groups[g].bits|
    ensures var f := FirstRoom(groups, g);
      var r := ScanGroups(groups, perMap, g, p);
      && (r.Hit? ==> f <= r.g && (f == r.g ==> Entry(perMap, g, p, f) <= r.p))
      && SetBetween(groups, f, Entry(perMap, g, p, f), if r.Hit? then r.g else |groups|, if r.Hit? then r.p else 0)
    decreases |groups| - g
  {
    hide Counted;
    if g < |groups| {
      if groups[g].free == 0 {
        var m := p % perMap;
        assert m % perMap == m;
        PassFinds(groups, perMap, g + 1, m);
      } else {
        StartFinds(groups, perMap, g + 1);
      }
    }
  }

  // ---------- the scan, as loops ----------

  /** The bit position of bit `nb` of word `idx` of bitmap block `bm`. */
  function Pos(words: nat, bm: nat, idx: nat, nb: nat): nat {
    32 * (bm * words + idx) + nb
  }

  /** The number of bits in a group's bitmap. */
  function Size(maps: nat, words: nat): nat {
    32 * (maps * words)
  }

  lemma PosInside(maps: nat, words: nat, bm: nat, idx: nat, nb: nat)
    requires bm < maps && idx < words && nb < 32
    ensures Pos(words, bm, words, 0) == Pos(words, bm + 1, 0, 0) <= Size(maps, words)
    ensures Pos(words, bm, idx, nb) < Size(maps, words)
  {
  }

  lemma PosEnd(maps: nat, words: nat)
    ensures Pos(words, maps, 0, 0) == Size(maps, words)
  {
  }

  /** Resetting the bitmap number only. */
  lemma PosSkip(words: nat, bm: nat, idx: nat, nb: nat)
    requires words > 0 && idx < words && nb < 32
    ensures Pos(words, bm, idx, nb) % (32 * words) == Pos(words, 0, idx, nb) == 32 * idx + nb
  {
    assert Pos(words, bm, idx, nb) == (32 * words) * bm + (32 * idx + nb);
    DivUnique(32 * words, bm, 32 * idx + nb);
  }

  /** Skipping set bits does not change the first clear one. */
  lemma FirstClearSkip(bits: seq<bool>, from: nat, p: nat)
    requires from <= p <= |bits| && forall q :: from <= q < p ==> bits[q]
    ensures FirstClear(bits, from) == FirstClear(bits, p)
  {
  }

  /** The bit loop within one 32-bit word. */
  method ScanWord(bits: seq<bool>, word: nat, nb: nat) returns (n: nat)
    requires 32 * word + 32 <= |bits| && nb <= 32
    ensures nb <= n <= 32
    ensures n < 32 ==> !bits[32 * word + n]
    ensures forall q :: 32 * word + nb <= q < 32 * word + n ==> bits[q]
  {
    n := nb;
    while n < 32
      invariant nb <= n <= 32
      invariant forall q :: 32 * word + nb <= q < 32 * word + n ==> bits[q]
    {
      if !bits[32 * word + n] {
        return;
      }
      n := n + 1;
    }
  }

  /** The word loop within one bitmap block; a word of all ones is skipped without looking at its bits. */
  method ScanMap(bits: seq<bool>, bm: nat, words: nat, idx0: nat, nb0: nat) returns (found: bool, idx: nat, nb: nat)
    requires Pos(words, bm, words, 0) <= |bits| && idx0 < words && nb0 < 32
    ensures found ==> idx < words && nb < 32 && !bits[Pos(words, bm, idx, nb)]
    ensures !found ==> idx == words && nb == 0
    ensures Pos(words, bm, idx0, nb0) <= Pos(words, bm, idx, nb)
    ensures forall q :: Pos(words, bm, idx0, nb0) <= q < Pos(words, bm, idx, nb) ==> bits[q]
  {
    idx, nb := idx0, nb0;
    while idx < words
      invariant idx0 <= idx <= words && nb < 32 && (idx == words ==> nb == 0) && (idx == idx0 ==> nb == nb0)
      invariant forall q :: Pos(words, bm, idx0, nb0) <= q < Pos(words, bm, idx, nb) ==> bits[q]
    {
      var word := bm * words + idx;
      if exists n :: 32 * word <= n < 32 * word + 32 && !bits[n] {
        nb := ScanWord(bits, word, nb);
        if nb < 32 {
          return true, idx, nb;
        }
      }
      nb := 0;
      idx := idx + 1;
    }
    found := false;
  }

  /** The bitmap-block loop within one group. */
  method ScanGroup(bits: seq<bool>, maps: nat, words: nat, bm0: nat, idx0: nat, nb0: nat)
    returns (found: bool, bm: nat, idx: nat, nb: nat)
    requires |bits| == Size(maps, words) && bm0 < maps && idx0 < words && nb0 < 32
    requires Pos(words, bm0, idx0, nb0) <= |bits|
    ensures found ==> bm < maps && idx < words && nb < 32
    ensures found ==> Pos(words, bm, idx, nb) == FirstClear(bits, Pos(words, bm0, idx0, nb0)) < |bits|
    ensures !found ==> idx == 0 && nb == 0 && FirstClear(bits, Pos(words, bm0, idx0, nb0)) == |bits|
  {
    hide Pos, Size;
    ghost var from := Pos(words, bm0, idx0, nb0);
    bm, idx, nb := bm0, idx0, nb0;
    while bm < maps
      invariant bm0 <= bm <= maps && idx < words && nb < 32
      invariant bm > bm0 ==> idx == 0 && nb == 0
      invariant from <= Pos(words, bm, idx, nb) <= |bits|
      invariant forall q :: from <= q < Pos(words, bm, idx, nb) ==> bits[q]
    {
      PosInside(maps, words, bm, idx, nb);
      found, idx, nb := ScanMap(bits, bm, words, idx, nb);
      if found {
        PosInside(maps, words, bm, idx, nb);
        FirstClearSkip(bits, from, Pos(words, bm, idx, nb));
        return;
      }
      idx := 0;
      bm := bm + 1;
    }
    PosEnd(maps, words);
    found := false;
    FirstClearSkip(bits, from, |bits|);
  }

  // ---------- the table of ids ----------

  /** The descriptor and bitmap updates of an allocation, and of a free. */
  function Marked(groups: seq<Group>, g: nat, p: nat): (r: seq<Group>)
    requires g < |groups| && p < |groups[g].bits| && groups[g].free > 0
    ensures |r| == |groups|
  {
    groups[g := Group(groups[g].free - 1, groups[g].bits[p := true])]
  }

  function Unmarked(groups: seq<Group>, g: nat, p: nat): (r: seq<Group>)
    requires g < |groups| && p < |groups[g].bits|
    ensures |r| == |groups|
  {
    groups[g := Group(groups[g].free + 1, groups[g].bits[p := false])]
  }

  /** What does not change: ids per group, first id, number of ids, words per bitmap block, bitmap blocks per group. */
  datatype Shape = Shape(perGroup: nat, first: nat, count: nat, words: nat, maps: nat) {
    function PerMap(): nat { 32 * words }

    function Id(g: nat, p: nat): nat { first + perGroup * g + p }

    function GroupOf(id: nat): nat
      requires perGroup > 0 && first <= id
    { (id - first) / perGroup }

    function BitOf(id: nat): (p: nat)
      requires perGroup > 0 && first <= id
      ensures p < perGroup
    { (id - first) % perGroup }

    ghost predicate Sane() {
      && perGroup > 0 && words > 0 && first < count
      && perGroup <= Size(maps, words)
    }
  }

  /** Free counts agree with the clear bits everywhere, and bits that stand for no id are set. */
  ghost predicate Consistent(s: Shape, groups: seq<Group>, superFree: nat) {
    && s.Sane()
    && s.count <= s.first + s.perGroup * |groups|
    && (forall g :: 0 <= g < |groups| ==> |groups[g].bits| == Size(s.maps, s.words))
    && Counted(groups)
    && superFree == FreeSum(groups)
    && Padded(s, groups)
  }

  ghost predicate Padded(s: Shape, groups: seq<Group>) {
    forall g, p :: 0 <= g < |groups| && 0 <= p < |groups[g].bits| && (p >= s.perGroup || s.Id(g, p) >= s.count) ==>
      groups[g].bits[p]
  }

  ghost predicate InUse(s: Shape, groups: seq<Group>, id: nat)
    requires s.perGroup > 0
  {
    && s.first <= id < s.count
    && s.GroupOf(id) < |groups| && s.BitOf(id) < |groups[s.GroupOf(id)].bits|
    && groups[s.GroupOf(id)].bits[s.BitOf(id)]
  }

  /** Setting the bit of a free id uses exactly that id and keeps all counts in step. */
  lemma MarkConsistent(s: Shape, groups: seq<Group>, superFree: nat, g: nat, p: nat)
    requires Consistent(s, groups, superFree) && g < |groups| && p < |groups[g].bits| && !groups[g].bits[p]
    ensures superFree > 0 && groups[g].free > 0
    ensures Consistent(s, Marked(groups, g, p), superFree - 1)
    ensures p < s.perGroup && s.first <= s.Id(g, p) < s.count
    ensures !InUse(s, groups, s.Id(g, p))
    ensures forall id :: InUse(s, Marked(groups, g, p), id) <==> InUse(s, groups, id) || id == s.Id(g, p)
  {
    ClearUpdate(groups[g].bits, p, true);
    var groups' := Marked(groups, g, p);
    FreeSumUpdate(groups, g, groups'[g]);
    forall i | 0 <= i < |groups'|
      ensures groups'[i].free == Clear(groups'[i].bits)
    {
    }
    MarkUse(s, groups, groups', g, p, true);
  }

  /** Ids and positions within groups correspond one to one. */
  lemma IdOfPosition(s: Shape, g: nat, p: nat)
    requires p < s.perGroup
    ensures s.GroupOf(s.Id(g, p)) == g && s.BitOf(s.Id(g, p)) == p
  {
    DivUnique(s.perGroup, g, p);
  }

  lemma PositionOfId(s: Shape, id: nat)
    requires s.perGroup > 0 && s.first <= id
    ensures s.Id(s.GroupOf(id), s.BitOf(id)) == id
  {
  }

  /** Changing one bit changes the use of exactly the id it stands for. */
  lemma MarkUse(s: Shape, groups: seq<Group>, groups': seq<Group>, g: nat, p: nat, b: bool)
    requires s.Sane() && g < |groups| == |groups'| && p < |groups[g].bits| && p < s.perGroup && s.Id(g, p) < s.count
    requires groups' == groups[g := groups'[g]] && groups'[g].bits == groups[g].bits[p := b]
    ensures InUse(s, groups, s.Id(g, p)) == groups[g].bits[p]
    ensures forall id :: id != s.Id(g, p) ==> InUse(s, groups', id) == InUse(s, groups, id)
    ensures InUse(s, groups', s.Id(g, p)) == b
  {
    IdOfPosition(s, g, p);
    forall id: nat | id != s.Id(g, p)
      ensures InUse(s, groups', id) == InUse(s, groups, id)
    {
      if s.first <= id < s.count {
        PositionOfId(s, id);
      }
    }
  }

  /** Clearing the bit of an id in use frees exactly that id and keeps all counts in step. */
  lemma UnmarkConsistent(s: Shape, groups: seq<Group>, superFree: nat, g: nat, p: nat)
    requires Consistent(s, groups, superFree) && g < |groups| && p < s.perGroup && s.Id(g, p) < s.count
    requires p < |groups[g].bits| && groups[g].bits[p]
    ensures Consistent(s, Unmarked(groups, g, p), superFree + 1)
    ensures forall id :: InUse(s, Unmarked(groups, g, p), id) <==> InUse(s, groups, id) && id != s.Id(g, p)
  {
    ClearUpdate(groups[g].bits, p, false);
    var groups' := Unmarked(groups, g, p);
    FreeSumUpdate(groups, g, groups'[g]);
    MarkUse(s, groups, groups', g, p, false);
  }

  /** Freeing an id that is not in use leaves a count that is off by one. */
  lemma UnmarkBreaks(s: Shape, groups: seq<Group>, superFree: nat, g: nat, p: nat)
    requires Consistent(s, groups, superFree) && g < |groups| && p < |groups[g].bits| && !groups[g].bits[p]
    ensures !Consistent(s, Unmarked(groups, g, p), superFree + 1)
  {
    var groups' := Unmarked(groups, g, p);
    assert groups[g].bits[p := false] == groups[g].bits;
    assert groups'[g].free != Clear(groups'[g].bits);
  }

  /** A free undoes the allocation, bit for bit and count for count. */
  lemma FreeUndoesAlloc(groups: seq<Group>, g: nat, p: nat)
    requires g < |groups| && p < |groups[g].bits| && groups[g].free > 0 && !groups[g].bits[p]
    ensures Unmarked(Marked(groups, g, p), g, p) == groups
  {
    assert groups[g].bits[p := true][p := false] == groups[g].bits;
  }

  /** Splitting a bit position into bitmap block, word and bit number. */
  lemma SplitPosition(words: nat, r: nat, bm: nat, idx: nat, nb: nat)
    requires words > 0 && bm == r / (32 * words)
    requires nb == (r - bm * (32 * words)) % 32 && idx == (r - bm * (32 * words) - nb) / 32
    ensures idx < words && nb < 32 && Pos(words, bm, idx, nb) == r
  {
    var x := r - bm * (32 * words);
    assert x == r % (32 * words);
    assert 32 * idx + nb == x;
    assert bm * (32 * words) == 32 * (bm * words);
  }

  method SplitIndex(words: nat, r: nat) returns (bm: nat, idx: nat, nb: nat)
    requires words > 0
    ensures idx < words && nb < 32 && Pos(words, bm, idx, nb) == r
  {
    hide Pos;
    bm := r / (32 * words);
    Remainder(r, 32 * words);
    idx := r - bm * (32 * words);
    nb := idx % 32;
    idx := idx - nb;
    idx := idx / 32;
    SplitPosition(words, r, bm, idx, nb);
  }

  lemma MapsBound(maps: nat, words: nat, bm: nat, idx: nat, nb: nat)
    requires Pos(words, bm, idx, nb) < Size(maps, words)
    ensures bm < maps
  {
  }

  lemma PerMapFits(s: Shape)
    requires s.Sane()
    ensures 0 < s.PerMap() <= Size(s.maps, s.words) && s.maps > 0
  {
  }

  /** Every id lies in one of the groups. */
  lemma GroupExists(s: Shape, groups: seq<Group>, id: nat)
    requires s.perGroup > 0 && s.first <= id < s.count <= s.first + s.perGroup * |groups|
    ensures s.GroupOf(id) < |groups|
  {
  }

  /** ext2_alloc_block's search; a start of 0 stands for the first block. */
  ghost function Search(s: Shape, groups: seq<Group>, superFree: nat, start: nat): Scan
    requires Consistent(s, groups, superFree) && start < s.count && (start == 0 || s.first <= start)
  {
    var id := if start == 0 then s.first else start;
    PerMapFits(s);
    GroupExists(s, groups, id);
    ScanTwice(groups, s.PerMap(), s.GroupOf(id), s.BitOf(id))
  }

  /** When block allocation reports ENOSPC, in terms of what a caller can see before the call. */
  lemma SearchMisses(s: Shape, groups: seq<Group>, superFree: nat, start: nat)
    requires Consistent(s, groups, superFree) && start < s.count && (start == 0 || s.first <= start)
    ensures start == 0 ==> (Search(s, groups, superFree, start).Miss? <==> superFree == 0)
    ensures s.PerMap() > 0 && (start != 0 ==>
      (Search(s, groups, superFree, start).Miss? <==>
        superFree == 0
        || (FullFrom(groups, s.GroupOf(start))
            && Overlooked(groups, s.PerMap(), 0, s.BitOf(start) % s.PerMap()))))
  {
    PerMapFits(s);
    var id := if start == 0 then s.first else start;
    GroupExists(s, groups, id);
    EnospcExactly(groups, s.PerMap(), s.GroupOf(id), s.BitOf(id));
    FreeSumZero(groups);
    if start == 0 {
      IdOfPosition(s, 0, 0);
      EnospcFromZero(groups, s.PerMap());
      MissFromStart(groups, s.PerMap(), 0);
    }
  }

  lemma {:induction false} FreeSumZero(groups: seq<Group>)
    ensures FreeSum(groups) == 0 <==> FullFrom(groups, 0)
  {
    if groups != [] {
      var n := |groups| - 1;
      FreeSumZero(groups[..n]);
      assert forall i :: 0 <= i < n ==> groups[..n][i] == groups[i];
    }
  }

  ghost predicate AllUsed(s: Shape, groups: seq<Group>, from: nat, to: nat)
    requires s.perGroup > 0
  {
    forall id: nat :: from <= id < to ==> InUse(s, groups, id)
  }

  /** Positions are ordered as ids are: by group, then by bit. */
  lemma InOrder(n: nat, f: nat, m: nat, g: nat, p: nat)
    requires m < n && p < n
    ensures n * f + m <= n * g + p <==> f < g || (f == g && m <= p)
  {
    if f < g {
      MulMono(n, f + 1, g);
    } else if g < f {
      MulMono(n, g + 1, f);
    }
  }

  lemma MulMono(n: nat, a: nat, b: nat)
    requires a <= b
    ensures n * a <= n * b && n * (a + 1) == n * a + n
  {
  }

  /** Set bits from one position to another are ids in use from one id to the other. */
  lemma UsedBetween(s: Shape, groups: seq<Group>, superFree: nat, f: nat, m: nat, h: nat, q: nat, to: nat)
    requires Consistent(s, groups, superFree) && f < |groups| && m < s.perGroup && SetBetween(groups, f, m, h, q)
    requires to <= s.count && (h < |groups| ==> q < s.perGroup && to <= s.Id(h, q))
    ensures AllUsed(s, groups, s.Id(f, m), to)
  {
    hide Counted, Padded;
    forall id: nat | s.Id(f, m) <= id < to
      ensures InUse(s, groups, id)
    {
      PositionOfId(s, id);
      GroupExists(s, groups, id);
      var g, p := s.GroupOf(id), s.BitOf(id);
      InOrder(s.perGroup, f, m, g, p);
      if h < |groups| {
        InOrder(s.perGroup, h, q, g, p);
      }
    }
  }

  /**
   Where a pass from group `g` on, at the position of `id` within its group, starts to look: at `id` itself, or,
   if its group is full, at the same place of the first bitmap block of the first group that is not.
   */
  ghost function EntryId(s: Shape, groups: seq<Group>, id: nat, g: nat): nat
    requires s.perGroup > 0 && s.words > 0 && s.first <= id && g <= |groups|
  {
    var f := FirstRoom(groups, g);
    if f == s.GroupOf(id) then id else s.Id(f, s.BitOf(id) % s.PerMap())
  }

  /** Nothing from `from` on is free before `v`; or nothing at all is free from there on, nor before `v`. */
  ghost predicate FirstFit(s: Shape, groups: seq<Group>, from: nat, v: nat)
    requires s.perGroup > 0
  {
    || (from <= v && AllUsed(s, groups, from, v))
    || (AllUsed(s, groups, from, s.count) && AllUsed(s, groups, s.first, v))
  }

  lemma ModTwice(b: nat, n: nat)
    requires n > 0
    ensures b % n <= b && b % n % n == b % n
  {
  }

  lemma EntryIs(s: Shape, groups: seq<Group>, id: nat, g: nat, p: nat)
    requires s.perGroup > 0 && s.words > 0 && s.PerMap() > 0 && s.first <= id && g <= |groups|
    requires p == if g == s.GroupOf(id) then s.BitOf(id) else s.BitOf(id) % s.PerMap()
    requires g == s.GroupOf(id) || FullFrom(groups, s.GroupOf(id))
    ensures p < s.perGroup && Entry(s.PerMap(), g, p, FirstRoom(groups, g)) < s.perGroup
    ensures FirstRoom(groups, g) < |groups| ==>
      s.Id(FirstRoom(groups, g), Entry(s.PerMap(), g, p, FirstRoom(groups, g))) == EntryId(s, groups, id, g)
  {
    hide FirstRoom, s.PerMap;
    PositionOfId(s, id);
    ModTwice(s.BitOf(id), s.PerMap());
  }

  /** What a pass has passed over, in ids. */
  lemma PassIds(s: Shape, groups: seq<Group>, superFree: nat, g: nat, p: nat)
    requires Consistent(s, groups, superFree) && g < |groups| && p < s.perGroup
    requires Entry(s.PerMap(), g, p, FirstRoom(groups, g)) < s.perGroup
    ensures 0 < s.PerMap() <= Size(s.maps, s.words)
    ensures var f := FirstRoom(groups, g); var from := s.Id(f, Entry(s.PerMap(), g, p, f));
      match ScanGroups(groups, s.PerMap(), g, p)
      case Hit(h, q) => q < s.perGroup && from <= s.Id(h, q) < s.count && AllUsed(s, groups, from, s.Id(h, q))
      case Miss(_) => f < |groups| ==> AllUsed(s, groups, from, s.count)
  {
    hide Counted, Padded, SetBetween, AllUsed, InUse, ScanGroups, FirstRoom, Size, s.PerMap, Entry;
    PerMapFits(s);
    PassFinds(groups, s.PerMap(), g, p);
    var f := FirstRoom(groups, g);
    var m := Entry(s.PerMap(), g, p, f);
    match ScanGroups(groups, s.PerMap(), g, p)
    case Hit(h, q) =>
      MarkConsistent(s, groups, superFree, h, q);
      UsedBetween(s, groups, superFree, f, m, h, q, s.Id(h, q));
      InOrder(s.perGroup, f, m, h, q);
    case Miss(_) =>
      if f < |groups| {
        UsedBetween(s, groups, superFree, f, m, |groups|, 0, s.count);
      }
  }

  /** The place of a pass from the very start, in ids. */
  lemma StartIds(s: Shape, groups: seq<Group>, superFree: nat)
    requires Consistent(s, groups, superFree) && 0 < |groups|
    ensures 0 < s.PerMap() <= Size(s.maps, s.words)
    ensures var r := ScanGroups(groups, s.PerMap(), 0, 0);
      r.Hit? ==> r.p < s.perGroup && AllUsed(s, groups, s.first, s.Id(r.g, r.p))
  {
    PerMapFits(s);
    StartFinds(groups, s.PerMap(), 0);
    var r := ScanGroups(groups, s.PerMap(), 0, 0);
    if r.Hit? {
      MarkConsistent(s, groups, superFree, r.g, r.p);
      UsedBetween(s, groups, superFree, 0, 0, r.g, r.p, s.Id(r.g, r.p));
    }
  }

  /** Which block a search from `id` finds: the first free one from its entry, or else the first free one of all. */
  lemma TwiceFinds(s: Shape, groups: seq<Group>, superFree: nat, id: nat)
    requires Consistent(s, groups, superFree) && s.first <= id < s.count
    ensures 0 < s.PerMap() <= Size(s.maps, s.words) && s.GroupOf(id) < |groups|
    ensures var g := s.GroupOf(id); var r := ScanTwice(groups, s.PerMap(), g, s.BitOf(id));
      r.Hit? ==> var v := s.Id(r.g, r.p);
        if FullFrom(groups, g) then EntryId(s, groups, id, 0) <= v && AllUsed(s, groups, EntryId(s, groups, id, 0), v)
        else FirstFit(s, groups, EntryId(s, groups, id, g), v)
  {
    hide Counted, Padded, AllUsed, ScanGroups, FirstRoom, Overlooked, Size, EntryId, s.PerMap, Entry;
    var g, p := s.GroupOf(id), s.BitOf(id);
    PerMapFits(s);
    GroupExists(s, groups, id);
    EntryIs(s, groups, id, g, p);
    PassIds(s, groups, superFree, g, p);
    if FullFrom(groups, g) {
      MissAt(groups, s.PerMap(), g, p);
      MissAt(groups, s.PerMap(), 0, p % s.PerMap());
      if g > 0 {
        EntryIs(s, groups, id, 0, p % s.PerMap());
        PassIds(s, groups, superFree, 0, p % s.PerMap());
      }
    } else {
      MissLeaves(groups, s.PerMap(), g, p);
      StartIds(s, groups, superFree);
    }
  }

  /** From block 0 on, the search finds the first free block of all. */
  lemma ZeroFinds(s: Shape, groups: seq<Group>, superFree: nat)
    requires Consistent(s, groups, superFree)
    ensures 0 < s.PerMap() <= Size(s.maps, s.words) && s.GroupOf(s.first) == s.BitOf(s.first) == 0 < |groups|
    ensures var r := ScanTwice(groups, s.PerMap(), 0, 0);
      r.Hit? ==> AllUsed(s, groups, s.first, s.Id(r.g, r.p))
  {
    hide Counted, Padded, AllUsed, ScanGroups, s.PerMap;
    PerMapFits(s);
    IdOfPosition(s, 0, 0);
    GroupExists(s, groups, s.first);
    MissFromStart(groups, s.PerMap(), 0);
    StartIds(s, groups, superFree);
  }

  // ---------- two concrete volumes ----------

  /** A bitmap with every bit set but one. */
  function OneClear(n: nat, p: nat): (bits: seq<bool>)
    requires p < n
    ensures |bits| == n && forall q :: 0 <= q < n ==> bits[q] == (q != p)
  {
    seq(n, q => q != p)
  }

  lemma OneClearCount(n: nat, p: nat)
    requires p < n
    ensures Clear(OneClear(n, p)) == 1
  {
    var full := OneClear(n, p)[p := true];
    ClearZero(full);
    ClearUpdate(full, p, false);
    assert full[p := false] == OneClear(n, p);
  }

  lemma AllSet(n: nat)
    ensures Clear(seq(n, _ => true)) == 0
  {
    ClearZero(seq(n, _ => true));
  }

  /**
   Started elsewhere than at block 0, block allocation can report ENOSPC although a
   block is free: two groups with bitmaps of one 1 KiB block each, the second full,
   the first with block 6 free, and a start behind bit 5 of the second.
   */
  lemma EnospcTooEarly() returns (s: Shape, groups: seq<Group>, superFree: nat, start: nat)
    ensures Consistent(s, groups, superFree) && s.words == 256 && s.maps == 1 && s.perGroup == s.PerMap()
    ensures superFree > 0 && s.first <= start < s.count && !InUse(s, groups, 6) && s.first <= 6 < s.count
    ensures Search(s, groups, superFree, start).Miss?
  {
    s := Shape(8192, 1, 16384, 256, 1);
    groups := [Group(1, OneClear(8192, 5)), Group(0, seq(8192, _ => true))];
    superFree, start := 1, 8200;
    OneClearCount(8192, 5);
    AllSet(8192);
    FreeSumOf(groups[0], groups[1]);
    assert Size(1, 256) == 8192;
    assert s.GroupOf(start) == 1 && s.BitOf(start) == 7 && s.GroupOf(6) == 0 && s.BitOf(6) == 5;
    assert OverlookedIn(groups, 8192, 0, 7, 0);
    SearchMisses(s, groups, superFree, start);
  }

  lemma FreeSumOf(a: Group, b: Group)
    ensures FreeSum([a]) == a.free && FreeSum([a, b]) == a.free + b.free
  {
    assert [a, b][..1] == [a] && [a][..0] == [];
  }

  /** A volume of sixteen inodes of which only the last one is free. */
  const SIXTEEN := Shape(16, 1, 17, 256, 1)

  function LastFree(): seq<Group> {
    [Group(1, OneClear(8192, 15))]
  }

  lemma LastFreeConsistent()
    ensures Consistent(SIXTEEN, LastFree(), 1)
  {
    OneClearCount(8192, 15);
    FreeSumOf(LastFree()[0], LastFree()[0]);
    assert Size(1, 256) == 8192;
  }

  lemma LastFreeUse(id: nat)
    requires 1 <= id < 17
    ensures InUse(SIXTEEN, LastFree(), id) <==> id != 16
  {
    assert SIXTEEN.GroupOf(id) == 0 && SIXTEEN.BitOf(id) == id - 1;
  }

  lemma LastFreeFound()
    requires Consistent(SIXTEEN, LastFree(), 1)
    ensures !InodeSearchMisses(SIXTEEN, LastFree(), 1)
  {
    assert SIXTEEN.GroupOf(11) == 0 && SIXTEEN.BitOf(11) == 10;
    assert !LastFree()[0].bits[15];
  }

  /**
   Inode allocation reports ENOSPC when nothing is free from inode 11's group on, or only in front
   of the entry position.
   */
  ghost predicate InodeSearchMisses(s: Shape, groups: seq<Group>, superFree: nat)
    requires Consistent(s, groups, superFree) && s.first == 1
  {
    PerMapFits(s);
    FullFrom(groups, s.GroupOf(11)) || Overlooked(groups, s.PerMap(), s.GroupOf(11), s.BitOf(11))
  }

  /**
   What a caller does next: allocate, from `start` if it is a block, or free the id it has held for
   the index-th longest.
   */
  datatype Op = AllocOp(start: nat) | FreeOp(index: nat)

  ghost predicate Distinct(held: seq<nat>) {
    forall i, j :: 0 <= i < j < |held| ==> held[i] != held[j]
  }

  lemma DistinctCut(held: seq<nat>, k: nat)
    requires Distinct(held) && k < |held|
    ensures Distinct(held[..k] + held[k + 1..])
    ensures forall id :: id in held[..k] + held[k + 1..] <==> id in held && id != held[k]
  {
  }

  class IdTable {
    const s: Shape
    var groups: seq<Group>
    var superFree: nat

    ghost predicate Valid()
      reads this
    {
      Consistent(s, groups, superFree)
    }

    constructor (s: Shape, groups: seq<Group>, superFree: nat)
      requires Consistent(s, groups, superFree)
      ensures Valid() && this.s == s && this.groups == groups && this.superFree == superFree
    {
      this.s, this.groups, this.superFree := s, groups, superFree;
    }

    /** One pass of the group loop, skipping groups whose descriptor says they are full. */
    method ScanPass(g0: nat, bm0: nat, idx0: nat, nb0: nat) returns (found: bool, g: nat, bm: nat, idx: nat, nb: nat)
      requires s.words > 0 && s.PerMap() <= Size(s.maps, s.words)
      requires forall i :: 0 <= i < |groups| ==> |groups[i].bits| == Size(s.maps, s.words)
      requires g0 <= |groups| && bm0 < s.maps && idx0 < s.words && nb0 < 32
      requires Pos(s.words, bm0, idx0, nb0) <= Size(s.maps, s.words)
      ensures idx < s.words && nb < 32
      ensures found ==> bm < s.maps && g < |groups|
      ensures g0 < |groups| ==>
        ScanGroups(groups, s.PerMap(), g0, Pos(s.words, bm0, idx0, nb0)) ==
        if found then Hit(g, Pos(s.words, bm, idx, nb)) else Miss(Pos(s.words, 0, idx, nb))
    {
      hide Pos, Size, FirstClear;
      ghost var from := Pos(s.words, bm0, idx0, nb0);
      g, bm, idx, nb := g0, bm0, idx0, nb0;
      while g < |groups|
        invariant g0 <= g <= |groups| && bm < s.maps && idx < s.words && nb < 32
        invariant g > g0 ==> bm == 0
        invariant Pos(s.words, bm, idx, nb) <= Size(s.maps, s.words)
        invariant ScanGroups(groups, s.PerMap(), g0, from)
               == ScanGroups(groups, s.PerMap(), g, Pos(s.words, bm, idx, nb))
      {
        if groups[g].free != 0 {
          found, bm, idx, nb := ScanGroup(groups[g].bits, s.maps, s.words, bm, idx, nb);
          if found {
            return;
          }
        }
        PosSkip(s.words, bm, idx, nb);
        PosInside(s.maps, s.words, 0, idx, nb);
        bm := 0;
        g := g + 1;
      }
      found := false;
    }

    /** The address arithmetic in front of every search and free. */
    method Locate(id: nat) returns (g: nat, bm: nat, idx: nat, nb: nat)
      requires s.Sane() && s.first <= id
      ensures g == s.GroupOf(id) && bm < s.maps && idx < s.words && nb < 32
      ensures Pos(s.words, bm, idx, nb) == s.BitOf(id)
    {
      hide Pos, Size;
      g := (id - s.first) / s.perGroup;
      Remainder(id - s.first, s.perGroup);
      idx := id - s.first - g * s.perGroup;
      bm, idx, nb := SplitIndex(s.words, idx);
      MapsBound(s.maps, s.words, bm, idx, nb);
    }

    /** Marks the bit a scan has hit and updates both free counts. */
    method Claim(g: nat, bm: nat, idx: nat, nb: nat) returns (id: nat)
      requires Valid() && g < |groups| && Pos(s.words, bm, idx, nb) < |groups[g].bits|
      requires !groups[g].bits[Pos(s.words, bm, idx, nb)]
      modifies this
      ensures Valid() && superFree == old(superFree) - 1
      ensures old(groups[g].free) > 0 && groups == Marked(old(groups), g, Pos(s.words, bm, idx, nb))
      ensures id == s.Id(g, Pos(s.words, bm, idx, nb)) && s.first <= id < s.count
      ensures !InUse(s, old(groups), id)
      ensures forall i: nat :: InUse(s, groups, i) <==> InUse(s, old(groups), i) || i == id
    {
      var p := Pos(s.words, bm, idx, nb);
      MarkConsistent(s, groups, superFree, g, p);
      id := p + g * s.perGroup + s.first;
      groups := groups[g := Group(groups[g].free - 1, groups[g].bits[p := true])];
      superFree := superFree - 1;
    }

    /** ext2_alloc_block. */
    method AllocBlock(start: nat) returns (r: Option<nat>)
      requires Valid() && start < s.count && (start == 0 || s.first <= start)
      modifies this
      ensures Valid()
      ensures r.None? ==> groups == old(groups) && superFree == old(superFree)
      ensures r.Some? ==> superFree == old(superFree) - 1 && s.first <= r.value < s.count
      ensures r.Some? ==> !InUse(s, old(groups), r.value)
      ensures r.Some? ==> forall i: nat :: InUse(s, groups, i) <==> InUse(s, old(groups), i) || i == r.value
      ensures r.None? <==> Search(s, old(groups), old(superFree), start).Miss?
      ensures r.Some? && start == 0 ==> AllUsed(s, old(groups), s.first, r.value)
      ensures r.Some? && start != 0 ==> var g := s.GroupOf(start);
        && g < |old(groups)|
        && (old(groups)[g].free > 0 ==> FirstFit(s, old(groups), start, r.value))
        && (!FullFrom(old(groups), g) ==> FirstFit(s, old(groups), EntryId(s, old(groups), start, g), r.value))
        && (FullFrom(old(groups), g) ==> EntryId(s, old(groups), start, 0) <= r.value &&
                                         AllUsed(s, old(groups), EntryId(s, old(groups), start, 0), r.value))
    {
      var id := start;
      if start == 0 {
        id := s.first;
      }
      GroupExists(s, groups, id);
      var g, bm, idx, nb := Locate(id);
      PosInside(s.maps, s.words, bm, idx, nb);
      PerMapFits(s);
      ghost var g0, p0 := g, s.BitOf(id);
      var found;
      found, g, bm, idx, nb := ScanPass(g, bm, idx, nb);
      if !found {
        PosInside(s.maps, s.words, 0, idx, nb);
        found, g, bm, idx, nb := ScanPass(0, 0, idx, nb);
        if !found {
          return None;
        }
      }
      TwiceFinds(s, groups, superFree, id);
      ZeroFinds(s, groups, superFree);
      var b := Claim(g, bm, idx, nb);
      return Some(b);
    }

    /** ext2_alloc_inode: a single pass, from inode 11. */
    method AllocInode() returns (r: Option<nat>)
      requires Valid() && s.first == 1
      modifies this
      ensures Valid()
      ensures r.None? ==> groups == old(groups) && superFree == old(superFree)
      ensures r.Some? ==> superFree == old(superFree) - 1 && s.first <= r.value < s.count
      ensures r.Some? ==> !InUse(s, old(groups), r.value)
      ensures r.Some? ==> forall i: nat :: InUse(s, groups, i) <==> InUse(s, old(groups), i) || i == r.value
      ensures r.None? <==> InodeSearchMisses(s, old(groups), old(superFree))
      ensures r.Some? ==> var g := s.GroupOf(11);
        && g < |old(groups)|
        && (old(groups)[g].free > 0 ==> 11 <= r.value && AllUsed(s, old(groups), 11, r.value))
        && EntryId(s, old(groups), 11, g) <= r.value
        && AllUsed(s, old(groups), EntryId(s, old(groups), 11, g), r.value)
    {
      var g, bm, idx, nb := Locate(11);
      if g >= |groups| {
        return None;
      }
      PosInside(s.maps, s.words, bm, idx, nb);
      PerMapFits(s);
      MissAt(groups, s.PerMap(), g, s.BitOf(11));
      EntryIs(s, groups, 11, g, s.BitOf(11));
      PassIds(s, groups, superFree, g, s.BitOf(11));
      var found;
      found, g, bm, idx, nb := ScanPass(g, bm, idx, nb);
      if !found {
        return None;
      }
      var i := Claim(g, bm, idx, nb);
      return Some(i);
    }

    /**
     The common steps of ext2_free_block and ext2_free_inode. They do not look whether
     the id is in use: the counts stay in step exactly if it is.
     */
    method Unset(id: nat) returns (g: nat, ghost p: nat)
      requires Valid() && s.first <= id < s.count
      modifies this
      ensures Valid() <==> old(InUse(s, groups, id))
      ensures g == s.GroupOf(id) && p == s.BitOf(id) && g < |old(groups)| && p < |old(groups)[g].bits|
      ensures superFree == old(superFree) + 1 && groups == Unmarked(old(groups), g, p)
      ensures forall i: nat :: InUse(s, groups, i) <==> InUse(s, old(groups), i) && i != id
    {
      var bm, idx, nb;
      g, bm, idx, nb := Locate(id);
      var at := Pos(s.words, bm, idx, nb);
      p := at;
      PositionOfId(s, id);
      GroupExists(s, groups, id);
      MarkUse(s, groups, Unmarked(groups, g, p), g, p, false);
      if groups[g].bits[p] {
        UnmarkConsistent(s, groups, superFree, g, p);
      } else {
        UnmarkBreaks(s, groups, superFree, g, p);
      }
      groups := groups[g := Group(groups[g].free + 1, groups[g].bits[at := false])];
      superFree := superFree + 1;
    }

    /** ext2_free_block; `holds` says that its assertions hold. */
    method FreeBlock(id: nat) returns (holds: bool)
      requires Valid()
      modifies this
      ensures holds <==> s.first < id < s.count
      ensures holds ==> (Valid() <==> old(InUse(s, groups, id))) && superFree == old(superFree) + 1
      ensures holds ==> forall i: nat :: InUse(s, groups, i) <==> InUse(s, old(groups), i) && i != id
      ensures !holds ==> groups == old(groups) && superFree == old(superFree)
    {
      if !(id < s.count && id > s.first) {
        return false;
      }
      var g, p := Unset(id);
      holds := true;
    }

    /**
     ext2_free_inode; `holds` says that its assertions hold. Inodes are numbered from
     1, so that inode_count is the last of them, and the assertion shuts it out.
     */
    method FreeInode(id: nat) returns (holds: bool)
      requires Valid()
      modifies this
      ensures holds <==> s.first < id < s.count - 1
      ensures holds ==> (Valid() <==> old(InUse(s, groups, id))) && superFree == old(superFree) + 1
      ensures holds ==> forall i: nat :: InUse(s, groups, i) <==> InUse(s, old(groups), i) && i != id
      ensures !holds ==> groups == old(groups) && superFree == old(superFree)
    {
      var inodeCount := s.count - 1;
      if !(id < inodeCount && id > s.first) {
        return false;
      }
      var g, p := Unset(id);
      holds := true;
    }

    /** The id that the next free of a run stops at. */
    ghost predicate Refused(op: Op, held: seq<nat>, inodes: bool) {
      && op.FreeOp? && op.index < |held|
      && (held[op.index] == s.first || (inodes && held[op.index] == s.count - 1))
    }

    /** An allocation, of a block or of an inode. */
    method Alloc(start: nat, inodes: bool) returns (r: Option<nat>)
      requires Valid() && (if inodes then s.first == 1 else start < s.count && (start == 0 || s.first <= start))
      modifies this
      ensures Valid()
      ensures r.None? ==> groups == old(groups) && superFree == old(superFree)
      ensures r.Some? ==> superFree == old(superFree) - 1 && s.first <= r.value < s.count
      ensures r.Some? ==> !InUse(s, old(groups), r.value)
      ensures r.Some? ==> forall i: nat :: InUse(s, groups, i) <==> InUse(s, old(groups), i) || i == r.value
    {
      if inodes {
        r := AllocInode();
      } else {
        r := AllocBlock(start);
      }
    }

    /**
     Every run of allocations and frees, of blocks or of inodes, up to a free that the
     source's assertions refuse: the ids handed out are distinct and were free before,
     exactly they are in use beyond the old ones, and the counts account for each.
     */
    method Run(ops: seq<Op>, inodes: bool) returns (held: seq<nat>, done: nat)
      requires Valid() && (inodes ==> s.first == 1)
      requires forall i :: 0 <= i < |ops| && ops[i].AllocOp? ==>
        ops[i].start < s.count && (ops[i].start == 0 || s.first <= ops[i].start)
      modifies this
      ensures Valid() && superFree + |held| == old(superFree)
      ensures done <= |ops| && (done < |ops| ==> Refused(ops[done], held, inodes))
      ensures Distinct(held) && forall k :: 0 <= k < |held| ==> !InUse(s, old(groups), held[k])
      ensures forall id: nat :: InUse(s, groups, id) <==> InUse(s, old(groups), id) || id in held
    {
      hide InUse, Search, Marked, Unmarked;
      held, done := [], 0;
      while done < |ops|
        invariant Valid() && superFree + |held| == old(superFree) && done <= |ops|
        invariant Distinct(held)
        invariant forall k :: 0 <= k < |held| ==> !InUse(s, old(groups), held[k]) && s.first <= held[k] < s.count
        invariant forall id: nat :: InUse(s, groups, id) <==> InUse(s, old(groups), id) || id in held
      {
        match ops[done] {
        case AllocOp(start) =>
          var r := Alloc(start, inodes);
          if r.Some? {
            assert r.value !in held;
            held := held + [r.value];
          }
        case FreeOp(k) =>
          if k < |held| {
            assert held[k] in held;
            var holds;
            if inodes {
              holds := FreeInode(held[k]);
            } else {
              holds := FreeBlock(held[k]);
            }
            if !holds {
              return;
            }
            DistinctCut(held, k);
            held := held[..k] + held[k + 1..];
          }
        }
        done := done + 1;
      }
    }
  }

  /** The last inode can be allocated and not freed. */
  method LastInodeStays() returns (r: Option<nat>, holds: bool)
    ensures r == Some(16) && !holds
  {
    hide LastFree, Consistent, InodeSearchMisses, InUse;
    LastFreeConsistent();
    LastFreeFound();
    var table := new IdTable(SIXTEEN, LastFree(), 1);
    r := table.AllocInode();
    LastFreeUse(r.value);
    holds := table.FreeInode(r.value);
  }
}
