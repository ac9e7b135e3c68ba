/** Pure string helpers used by the transcript animation: joining segments
    with a line break, prefixes, and the longest common prefix. */
module Strings {

  /** `segs.join("\n")`: the segments in order, one line break between each
      two neighbours and none at either end. */
  function Join(segs: seq<string>): string
  {
    if |segs| == 0 then ""
    else if |segs| == 1 then segs[0]
    else segs[0] + "\n" + Join(segs[1..])
  }

  /** `p` is a prefix of `s`. */
  predicate IsPrefix(p: string, s: string)
  {
    |p| <= |s| && s[..|p|] == p
  }

  /** A non-empty list joins to the join of all but its last segment, a
      line break when there is more than one segment, then the last
      segment. */
  lemma {:induction false} JoinSplitLast(segs: seq<string>)
    requires |segs| > 0
    ensures Join(segs) == Join(segs[..|segs| - 1]) + (if |segs| > 1 then "\n" else "") + segs[|segs| - 1]
  {
    if |segs| == 1 {
      assert segs[..0] == [];
    } else if |segs| == 2 {
      assert segs[..1] == [segs[0]];
      assert segs[1..] == [segs[1]];
    } else {
      var earlier := segs[..|segs| - 1];
      assert earlier[1..] == segs[1..][..|segs| - 2];
      JoinSplitLast(segs[1..]);
    }
  }

  /** The length of the longest common prefix of `a` and `b`, counted
      from the front while the characters agree. */
  function CommonPrefixLen(a: string, b: string): nat
  {
    if |a| == 0 || |b| == 0 || a[0] != b[0] then 0
    else CommonPrefixLen(a[1..], b[1..]) + 1
  }

  /** `CommonPrefixLen` is the longest common prefix: both strings agree
      up to it, and it stops at the end of one of them or at the first
      position where they differ. */
  lemma {:induction false} CommonPrefixLenIsLongest(a: string, b: string)
    ensures CommonPrefixLen(a, b) <= |a| && CommonPrefixLen(a, b) <= |b|
    ensures a[..CommonPrefixLen(a, b)] == b[..CommonPrefixLen(a, b)]
    ensures CommonPrefixLen(a, b) < |a| && CommonPrefixLen(a, b) < |b| ==> a[CommonPrefixLen(a, b)] != b[CommonPrefixLen(a, b)]
  {
    if |a| == 0 || |b| == 0 || a[0] != b[0] {
    } else {
      var m := CommonPrefixLen(a[1..], b[1..]);
      CommonPrefixLenIsLongest(a[1..], b[1..]);
      assert a[..m + 1] == [a[0]] + a[1..][..m];
      assert b[..m + 1] == [b[0]] + b[1..][..m];
    }
  }

  /** Any length with the three properties of `CommonPrefixLen` is that
      length: the longest common prefix is unique. */
  lemma {:induction false} CommonPrefixLenUnique(a: string, b: string, n: nat)
    requires n <= |a| && n <= |b|
    requires a[..n] == b[..n]
    requires n < |a| && n < |b| ==> a[n] != b[n]
    ensures n == CommonPrefixLen(a, b)
  {
    if n > 0 {
      assert a[0] == a[..n][0] == b[..n][0] == b[0];
      assert a[1..][..n - 1] == a[..n][1..] == b[..n][1..] == b[1..][..n - 1];
      CommonPrefixLenUnique(a[1..], b[1..], n - 1);
    }
  }

  /** A string extended by more text shares its whole original with the
      extension as common prefix. */
  lemma CommonPrefixOfExtension(s: string, ext: string)
    ensures CommonPrefixLen(s + ext, s) == |s|
  {
    assert (s + ext)[..|s|] == s[..|s|];
    CommonPrefixLenUnique(s + ext, s, |s|);
  }
}
