/**
 The block tree of an ext2 inode (fs/ext2/inoblk.c): twelve direct pointers and
 one singly, one doubly and one triply indirect pointer block.

 A pointer is named by its path: the slot of the inode followed by the word
 numbers inside the pointer blocks it is reached through.
 */
module Ext2Tree {
  import opened Arith
  import opened Bytes

  // ---------- 32-bit little-endian words in blocks ----------

  function Word(b: seq<byte>, i: nat): (v: nat)
    requires 4 * i + 4 <= |b|
    ensures v < 0x1_0000_0000
  {
    (b[4 * i] as int) + 256 * (b[4 * i + 1] as int) + 65536 * (b[4 * i + 2] as int) + 16777216 * (b[4 * i + 3] as int)
  }

  function Encode(v: nat): (d: seq<byte>)
    requires v < 0x1_0000_0000
    ensures |d| == 4
  {
    [v % 256, v / 256 % 256, v / 65536 % 256, v / 16777216]
  }

  /** The block with word `i` overwritten. */
  function PutWord(b: seq<byte>, i: nat, v: nat): (r: seq<byte>)
    requires 4 * i + 4 <= |b| && v < 0x1_0000_0000
    ensures |r| == |b|
  {
    Overlay(b, 4 * i, Encode(v))
  }

  lemma WordAfterPut(b: seq<byte>, i: nat, v: nat, j: nat)
    requires 4 * i + 4 <= |b| && 4 * j + 4 <= |b| && v < 0x1_0000_0000
    ensures Word(PutWord(b, i, v), j) == if j == i then v else Word(b, j)
  {
    var r := PutWord(b, i, v);
    if j == i {
      OverlayAt(b, 4 * i, Encode(v), 4 * i);
      OverlayAt(b, 4 * i, Encode(v), 4 * i + 1);
      OverlayAt(b, 4 * i, Encode(v), 4 * i + 2);
      OverlayAt(b, 4 * i, Encode(v), 4 * i + 3);
      EncodeValue(v);
    }
  }

  lemma EncodeValue(v: nat)
    requires v < 0x1_0000_0000
    ensures v == v % 256 + 256 * (v / 256 % 256) + 65536 * (v / 65536 % 256) + 16777216 * (v / 16777216)
  {
  }

  /** Pointers are stored with their lowest byte first. */
  lemma PointerLayout(b: seq<byte>, i: nat, v: nat)
    requires 4 * i + 4 <= |b| && v < 0x1_0000_0000
    ensures Word(b, i) == Little(b[4 * i..4 * i + 4]) && Little(Encode(v)) == v
    ensures Encode(0x1234) == [0x34, 0x12, 0, 0]
  {
    LittleFour(b[4 * i..4 * i + 4]);
    LittleFour(Encode(v));
    EncodeValue(v);
  }

  lemma WordOfZeros(n: nat, i: nat)
    requires 4 * i + 4 <= n
    ensures Word(Zeros(n), i) == 0
  {
  }

  // ---------- paths ----------

  /** How long the paths below a slot of the inode are. */
  function Depth(slot: nat): nat {
    if slot < 12 then 1 else if slot == 12 then 2 else if slot == 13 then 3 else 4
  }

  /** A pointer of the inode or of one of its pointer blocks; `N` words per block. */
  predicate IsSlot(N: nat, path: seq<nat>) {
    && 1 <= |path| && path[0] < 15 && |path| <= Depth(path[0])
    && forall i :: 1 <= i < |path| ==> path[i] < N
  }

  /** A pointer to a data block. */
  predicate IsLeaf(N: nat, path: seq<nat>) {
    IsSlot(N, path) && |path| == Depth(path[0])
  }

  function Parent(path: seq<nat>): seq<nat>
    requires path != []
  {
    path[..|path| - 1]
  }

  function Last(path: seq<nat>): nat
    requires path != []
  {
    path[|path| - 1]
  }

  /** The path ext2_decode_block_id follows for file block `n`. */
  function PathOf(N: nat, n: nat): (path: seq<nat>)
    requires N > 0
    ensures path != []
  {
    var S := Mul(N, N);
    if n < 12 then [n]
    else if n < 12 + N then [12, n - 12]
    else if n < 12 + N + S then
      var m := n - 12 - N;
      [13, Quotient(m, N), Rest(m, N)]
    else
      var m := n - 12 - N - S;
      [14, Quotient(m, S), Quotient(Rest(m, S), N), Rest(Rest(m, S), N)]
  }

  /** Number of file blocks the tree can address. */
  function Blocks(N: nat): nat {
    12 + N + Mul(N, N) + Mul(N, Mul(N, N))
  }

  /** The file block a leaf path stands for. */
  function BlockOf(N: nat, path: seq<nat>): nat
    requires IsLeaf(N, path)
  {
    if path[0] < 12 then path[0]
    else if path[0] == 12 then 12 + path[1]
    else if path[0] == 13 then 12 + N + Mul(N, path[1]) + path[2]
    else 12 + N + Mul(N, N) + Mul(Mul(N, N), path[1]) + (Mul(N, path[2]) + path[3])
  }

  lemma QuotientBound(m: nat, a: nat, n: nat)
    requires n > 0 && m < a * n
    ensures m / n < a
  {
  }

  lemma DigitsBound(N: nat, i: nat, j: nat)
    requires i < N && j < N
    ensures N * i + j < N * N
  {
    MulMonotone(i + 1, N, N);
  }

  /** Two digits to the base N. */
  lemma TwoDigits(N: nat, m: nat)
    requires N > 0 && m < Mul(N, N)
    ensures Quotient(m, N) < N && Mul(N, Quotient(m, N)) + Rest(m, N) == m
  {
  }

  lemma ThreeDigits(N: nat, S: nat, m: nat)
    requires N > 0 && S == Mul(N, N) && m < Mul(N, S)
    ensures S > 0 && Quotient(m, S) < N
    ensures Quotient(Rest(m, S), N) < N && Rest(Rest(m, S), N) < N
    ensures Mul(S, Quotient(m, S)) + (Mul(N, Quotient(Rest(m, S), N)) + Rest(Rest(m, S), N)) == m
  {
  }

  /** Every addressable block has a leaf path, and the path determines the block. */
  lemma PathOfIsLeaf(N: nat, n: nat)
    requires N > 0 && n < Blocks(N)
    ensures IsLeaf(N, PathOf(N, n)) && BlockOf(N, PathOf(N, n)) == n
  {
    hide Mul, Quotient, Rest;
    var S := Mul(N, N);
    if n < 12 + N {
    } else if n < 12 + N + S {
      TwoDigits(N, n - 12 - N);
    } else {
      ThreeDigits(N, S, n - 12 - N - S);
    }
  }

  lemma DoublyInverse(N: nat, i: nat, j: nat)
    requires i < N && j < N
    ensures Mul(N, i) + j < Mul(N, N)
    ensures Quotient(Mul(N, i) + j, N) == i && Rest(Mul(N, i) + j, N) == j
  {
    DigitsBound(N, i, j);
    DivUnique(N, i, j);
  }

  lemma TriplyInverse(N: nat, S: nat, i: nat, r: nat)
    requires i < N && r < S
    ensures Mul(S, i) + r < Mul(N, S)
    ensures Quotient(Mul(S, i) + r, S) == i && Rest(Mul(S, i) + r, S) == r
  {
    DivUnique(S, i, r);
    MulMonotone(i + 1, N, S);
  }

  /** Every leaf path belongs to an addressable block that decodes to it. */
  lemma BlockOfIsInverse(N: nat, path: seq<nat>)
    requires N > 0 && IsLeaf(N, path)
    ensures BlockOf(N, path) < Blocks(N) && PathOf(N, BlockOf(N, path)) == path
  {
    hide Mul, Quotient, Rest;
    if path[0] < 13 {
    } else if path[0] == 13 {
      DoublyInverse(N, path[1], path[2]);
      assert path == [13, path[1], path[2]];
    } else {
      DoublyInverse(N, path[2], path[3]);
      TriplyInverse(N, Mul(N, N), path[1], Mul(N, path[2]) + path[3]);
      assert path == [14, path[1], path[2], path[3]];
    }
  }

  /** The decoding of file blocks is one to one. */
  lemma PathOfInjective(N: nat, n: nat, m: nat)
    requires N > 0 && n < Blocks(N) && m < Blocks(N) && PathOf(N, n) == PathOf(N, m)
    ensures n == m
  {
    PathOfIsLeaf(N, n);
    PathOfIsLeaf(N, m);
  }

  /** Path `p` comes before path `q`: at the first place where they differ its number is lower. */
  ghost predicate Before(p: seq<nat>, q: seq<nat>) {
    p != [] && q != [] && (p[0] < q[0] || (p[0] == q[0] && Before(p[1..], q[1..])))
  }

  lemma DigitOrder(N: nat, n: nat, m: nat)
    requires N > 0 && n < m
    ensures Quotient(n, N) < Quotient(m, N) || (Quotient(n, N) == Quotient(m, N) && Rest(n, N) < Rest(m, N))
  {
    if Quotient(m, N) < Quotient(n, N) {
      MulMonotone(m / N + 1, n / N, N);
    }
  }

  /** File blocks and the pointers to them are in the same order. */
  lemma PathOfOrder(N: nat, n: nat, m: nat)
    requires N > 0 && n < m
    ensures Before(PathOf(N, n), PathOf(N, m))
  {
    hide Mul, Quotient, Rest;
    var S := Mul(N, N);
    var p, q := PathOf(N, n), PathOf(N, m);
    if 12 + N <= n && m < 12 + N + S {
      var a, b := n - 12 - N, m - 12 - N;
      DigitOrder(N, a, b);
      BeforeThree(13, Quotient(a, N), Rest(a, N), Quotient(b, N), Rest(b, N));
    } else if 12 + N + S <= n {
      var a, b := n - 12 - N - S, m - 12 - N - S;
      SquarePositive(N);
      DigitOrder(S, a, b);
      if Quotient(a, S) == Quotient(b, S) {
        DigitOrder(N, Rest(a, S), Rest(b, S));
        BeforeThree(Quotient(a, S), Quotient(Rest(a, S), N), Rest(Rest(a, S), N),
                    Quotient(Rest(b, S), N), Rest(Rest(b, S), N));
      }
      assert p[1..] == [Quotient(a, S), Quotient(Rest(a, S), N), Rest(Rest(a, S), N)];
      assert q[1..] == [Quotient(b, S), Quotient(Rest(b, S), N), Rest(Rest(b, S), N)];
    }
  }

  lemma SquarePositive(N: nat)
    requires N > 0
    ensures Mul(N, N) > 0
  {
  }

  lemma BeforeThree(s: nat, i: nat, j: nat, i': nat, j': nat)
    requires i < i' || (i == i' && j < j')
    ensures Before([s, i, j], [s, i', j'])
  {
    assert [s, i, j][1..] == [i, j] && [s, i', j'][1..] == [i', j'] && [i, j][1..] == [j] && [i', j'][1..] == [j'];
    assert Before([j], [j']) <==> j < j';
  }

  /** The digits of a doubly indirect block number. */
  lemma DoublyPath(N: nat, n: nat) returns (i: nat, j: nat)
    requires N > 0 && 12 + N <= n < 12 + N + Mul(N, N)
    ensures i < N && j < N && n == 12 + N + (Mul(N, i) + j) && PathOf(N, n) == [13] + [i] + [j]
  {
    hide Mul, Quotient, Rest;
    var m := n - 12 - N;
    TwoDigits(N, m);
    i, j := Quotient(m, N), Rest(m, N);
    assert [13] + [i] + [j] == [13, i, j];
  }

  /** The digits of a triply indirect block number. */
  lemma TriplyPath(N: nat, n: nat) returns (k: nat, i: nat, j: nat)
    requires N > 0 && 12 + N + Mul(N, N) <= n < Blocks(N)
    ensures k < N && i < N && j < N
    ensures n == 12 + N + Mul(N, N) + Mul(Mul(N, N), k) + (Mul(N, i) + j)
    ensures PathOf(N, n) == [14, k] + [i] + [j]
    ensures Mul(N, i) + j < Mul(N, N)
  {
    hide Mul, Quotient, Rest;
    var S := Mul(N, N);
    var m := n - 12 - N - S;
    ThreeDigits(N, S, m);
    k, i, j := Quotient(m, S), Quotient(Rest(m, S), N), Rest(Rest(m, S), N);
    DoublyInverse(N, i, j);
    assert [14, k] + [i] + [j] == [14, k, i, j];
  }

  // ---------- what the pointers hold ----------

  /** The pointer at `path`; 0 where a pointer block on the way is missing. */
  function Val(disk: seq<seq<byte>>, root: seq<nat>, path: seq<nat>): nat
    requires path != []
  {
    if |path| == 1 then
      if path[0] < |root| then root[path[0]] else 0
    else
      var p := Val(disk, root, Parent(path));
      if p == 0 || p >= |disk| || 4 * Last(path) + 4 > |disk[p]| then 0 else Word(disk[p], Last(path))
  }

  /** A slot that points to a pointer block. */
  predicate IsInner(N: nat, path: seq<nat>) {
    IsSlot(N, path) && |path| < Depth(path[0])
  }

  ghost predicate Blocked(N: nat, disk: seq<seq<byte>>, root: seq<nat>) {
    |root| == 15 && forall b :: 0 <= b < |disk| ==> |disk[b]| == 4 * N
  }

  /** Every pointer is 0 or a block in use, and no block is pointed to twice. */
  ghost predicate Sound(N: nat, disk: seq<seq<byte>>, root: seq<nat>, used: iset<nat>) {
    && Blocked(N, disk, root)
    && (forall p :: IsSlot(N, p) && Val(disk, root, p) != 0 ==>
         Val(disk, root, p) in used && Val(disk, root, p) < |disk|)
    && (forall p, q :: IsSlot(N, p) && IsSlot(N, q) && Val(disk, root, p) == Val(disk, root, q) != 0 ==> p == q)
  }

  lemma ParentIsInner(N: nat, path: seq<nat>)
    requires IsSlot(N, path) && |path| > 1
    ensures IsInner(N, Parent(path)) && Last(path) < N && Parent(path) + [Last(path)] == path
  {
  }

  /** Changing a block that is not a pointer block of this inode changes no pointer. */
  lemma {:induction false} ValFrame(N: nat, disk: seq<seq<byte>>, root: seq<nat>, b: nat, data: seq<byte>,
                                    path: seq<nat>)
    requires b < |disk| && IsSlot(N, path) && |data| == |disk[b]|
    requires b == 0 || forall q :: IsInner(N, q) ==> Val(disk, root, q) != b
    ensures Val(disk[b := data], root, path) == Val(disk, root, path)
    decreases |path|
  {
    if |path| > 1 {
      ParentIsInner(N, path);
      ValFrame(N, disk, root, b, data, Parent(path));
    }
  }

  /** Setting a data pointer inside a pointer block changes that pointer and no other. */
  lemma {:induction false} ValSetWord(N: nat, disk: seq<seq<byte>>, root: seq<nat>, used: iset<nat>,
                                      leaf: seq<nat>, v: nat, path: seq<nat>)
    requires Sound(N, disk, root, used) && IsLeaf(N, leaf) && |leaf| > 1 && v < 0x1_0000_0000
    requires Val(disk, root, Parent(leaf)) != 0 && IsSlot(N, path)
    ensures var b := Val(disk, root, Parent(leaf));
            b < |disk| && |disk[b]| == 4 * N && Last(leaf) < N
            && Val(disk[b := PutWord(disk[b], Last(leaf), v)], root, path)
               == if path == leaf then v else Val(disk, root, path)
    decreases |path|
  {
    ParentIsInner(N, leaf);
    var b := Val(disk, root, Parent(leaf));
    if |path| > 1 {
      ParentIsInner(N, path);
      ValSetWord(N, disk, root, used, leaf, v, Parent(path));
      if Val(disk, root, Parent(path)) == b {
        WordAfterPut(disk[b], Last(leaf), v, Last(path));
      }
    }
  }

  /** Setting one of the first twelve pointers changes only that one. */
  lemma {:induction false} ValSetDirect(N: nat, disk: seq<seq<byte>>, root: seq<nat>, n: nat, v: nat, path: seq<nat>)
    requires n < 12 && |root| == 15 && IsSlot(N, path)
    ensures Val(disk, root[n := v], path) == if path == [n] then v else Val(disk, root, path)
    decreases |path|
  {
    if |path| > 1 {
      ParentIsInner(N, path);
      ValSetDirect(N, disk, root, n, v, Parent(path));
    } else {
      assert path == [path[0]];
    }
  }

  /** Hanging a zeroed block into an empty indirect slot changes only that slot. */
  lemma {:induction false} ValHang(N: nat, disk: seq<seq<byte>>, root: seq<nat>, r: nat, b: nat, path: seq<nat>)
    requires Blocked(N, disk, root) && 12 <= r < 15 && root[r] == 0 && 0 < b < |disk| && IsSlot(N, path)
    requires forall q :: IsSlot(N, q) ==> Val(disk, root, q) != b
    ensures Val(disk[b := Zeros(4 * N)], root[r := b], path) == if path == [r] then b else Val(disk, root, path)
    decreases |path|
  {
    if |path| > 1 {
      ParentIsInner(N, path);
      ValHang(N, disk, root, r, b, Parent(path));
      if Parent(path) == [r] {
        WordOfZeros(4 * N, Last(path));
      }
    } else {
      assert path == [path[0]];
    }
  }

  // ---------- soundness is kept ----------

  /** What any single-pointer update to a fresh block keeps. */
  lemma SoundUpdate(N: nat, disk: seq<seq<byte>>, root: seq<nat>, used: iset<nat>,
                    disk': seq<seq<byte>>, root': seq<nat>, used': iset<nat>, slot: seq<nat>, v: nat)
    requires Sound(N, disk, root, used) && Blocked(N, disk', root') && |disk'| == |disk|
    requires IsSlot(N, slot) && v < |disk| && used <= used'
    requires v == 0 || (v in used' && forall q :: IsSlot(N, q) ==> Val(disk, root, q) != v)
    requires forall q :: IsSlot(N, q) ==> Val(disk', root', q) == if q == slot then v else Val(disk, root, q)
    ensures Sound(N, disk', root', used')
  {
  }
}
