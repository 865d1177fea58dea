/** Byte buffers and the two ways the kernel fills them: memcpy and memset. */
module Bytes {

  type byte = x: int | 0 <= x < 256

  /** Buffer `s` after a memcpy of `d` to offset `at`. */
  function Overlay(s: seq<byte>, at: nat, d: seq<byte>): (r: seq<byte>)
    requires at + |d| <= |s|
    ensures |r| == |s|
    ensures r[at..at + |d|] == d
    ensures forall i :: 0 <= i < at || at + |d| <= i < |s| ==> r[i] == s[i]
  {
    s[..at] + d + s[at + |d|..]
  }

  /** A buffer of `n` zero bytes. */
  function Zeros(n: nat): (r: seq<byte>)
    ensures |r| == n
    ensures forall i :: 0 <= i < n ==> r[i] == 0
  {
    seq(n, _ => 0)
  }

  /** The number that bytes spell, the lowest first. */
  function Little(d: seq<byte>): nat {
    if d == [] then 0 else d[0] + 256 * Little(d[1..])
  }

  lemma LittleTwo(d: seq<byte>)
    requires |d| == 2
    ensures Little(d) == d[0] + 256 * (d[1] as int)
  {
    assert d[1..] == [d[1]] && Little([d[1]]) == d[1];
  }

  lemma LittleFour(d: seq<byte>)
    requires |d| == 4
    ensures Little(d) == d[0] + 256 * (d[1] as int) + 65536 * (d[2] as int) + 16777216 * (d[3] as int)
  {
    LittleTwo(d[2..]);
    assert d[1..][1..] == d[2..] && Little(d[1..]) == d[1] + 256 * Little(d[2..]);
  }

  /** A memcpy leaves every slice it does not meet alone. */
  lemma OverlayApart(s: seq<byte>, at: nat, d: seq<byte>, lo: nat, hi: nat)
    requires at + |d| <= |s| && lo <= hi <= |s|
    requires hi <= at || at + |d| <= lo
    ensures Overlay(s, at, d)[lo..hi] == s[lo..hi]
  {
  }

  /** Copying a slice onto itself changes nothing. */
  lemma OverlaySelf(s: seq<byte>, at: nat, n: nat)
    requires at + n <= |s|
    ensures Overlay(s, at, s[at..at + n]) == s
  {
  }

  /** Copying a whole buffer replaces it. */
  lemma OverlayAll(s: seq<byte>, d: seq<byte>)
    requires |s| == |d|
    ensures Overlay(s, 0, d) == d
  {
  }

  lemma OverlayAt(s: seq<byte>, at: nat, d: seq<byte>, i: nat)
    requires at + |d| <= |s| && i < |s|
    ensures Overlay(s, at, d)[i] == if at <= i < at + |d| then d[i - at] else s[i]
  {
  }

  /** memcpys to disjoint ranges commute. */
  lemma OverlaySwap(s: seq<byte>, at: nat, d: seq<byte>, at': nat, d': seq<byte>)
    requires at + |d| <= |s| && at' + |d'| <= |s| && (at + |d| <= at' || at' + |d'| <= at)
    ensures Overlay(Overlay(s, at, d), at', d') == Overlay(Overlay(s, at', d'), at, d)
  {
  }

}
