/** src/util/util.h: the greatest parent directory shared by two paths (UNIX slash). */
module PathParent {
  import opened Bytes

  const SLASH: byte := 0x2f

  /** `ffs_cmp_n`: 0 if the first `n` bytes are equal, otherwise the position of the first
      difference plus one, negative if the byte of `a` is the smaller one. */
  method CmpN(a: seq<byte>, b: seq<byte>, n: nat) returns (r: int)
    requires n <= |a| && n <= |b|
    ensures r == 0 <==> a[..n] == b[..n]
    ensures r != 0 ==>
      var i := (if r < 0 then -r else r) - 1;
      0 <= i < n && a[..i] == b[..i] && if r < 0 then a[i] < b[i] else b[i] < a[i]
  {
    for i := 0 to n
      invariant a[..i] == b[..i]
    {
      if a[i] != b[i] {
        assert a[..n][i] != b[..n][i];
        return if a[i] < b[i] then -(i + 1) else i + 1;
      }
    }
    return 0;
  }

  /** `ffpath_rfindslash`: the last slash, or -1. */
  method FindLastSlash(p: seq<byte>) returns (r: int)
    ensures -1 <= r < |p| && (r >= 0 ==> p[r] == SLASH)
    ensures forall k :: r < k < |p| ==> p[k] != SLASH
  {
    r := |p| - 1;
    while r >= 0 && p[r] != SLASH
      invariant -1 <= r < |p| && forall k :: r < k < |p| ==> p[k] != SLASH
    {
      r := r - 1;
    }
  }

  /** `d` is the path or a directory on the way to it, without the last slash. */
  predicate IsParent(d: seq<byte>, p: seq<byte>)
  {
    d <= p && (|d| == |p| || p[|d|] == SLASH)
  }

  ghost predicate IsShared(d: seq<byte>, p1: seq<byte>, p2: seq<byte>)
  {
    IsParent(d, p1) && IsParent(d, p2)
  }

  /** The longest shared parent. */
  ghost predicate IsGreatest(d: seq<byte>, p1: seq<byte>, p2: seq<byte>)
  {
    IsShared(d, p1, p2) && forall e :: IsShared(e, p1, p2) ==> |e| <= |d|
  }

  /** When the paths agree on exactly `n` bytes, and these are not a shared parent, then every
      shared parent ends at a slash within them. */
  lemma SharedIsAtSlash(e: seq<byte>, p1: seq<byte>, p2: seq<byte>, n: nat)
    requires n <= |p1| && n <= |p2| && p1[..n] == p2[..n]
    requires n < |p1| && n < |p2| ==> p1[n] != p2[n]
    requires IsShared(e, p1, p2) && !IsShared(p1[..n], p1, p2)
    ensures |e| < n && p1[..n][|e|] == SLASH
  {
    if |e| < n {
      assert p1[..n][|e|] == p1[|e|] && p2[..n][|e|] == p2[|e|];
    }
  }

  /** The first `n` bytes agree, and then one path ends or the paths differ. */
  predicate AgreeOn(p1: seq<byte>, p2: seq<byte>, n: nat)
  {
    && n <= |p1| && n <= |p2| && p1[..n] == p2[..n]
    && (n < |p1| && n < |p2| ==> p1[n] != p2[n])
  }

  /** The common prefix itself, if each path ends there or goes on with a slash. */
  lemma WholePrefix(p1: seq<byte>, p2: seq<byte>, n: nat)
    requires AgreeOn(p1, p2, n) && IsParent(p1[..n], p1) && IsParent(p1[..n], p2)
    ensures IsGreatest(p1[..n], p1, p2)
  {
  }

  /** Otherwise, the part in front of its last slash. */
  lemma LastSlash(p1: seq<byte>, p2: seq<byte>, n: nat, i: int)
    requires AgreeOn(p1, p2, n) && !(IsParent(p1[..n], p1) && IsParent(p1[..n], p2))
    requires -1 <= i < n && (i >= 0 ==> p1[i] == SLASH) && forall k :: i < k < n ==> p1[k] != SLASH
    ensures if i < 0 then forall d :: !IsShared(d, p1, p2) else IsGreatest(p1[..i], p1, p2)
  {
    forall e | IsShared(e, p1, p2) ensures |e| <= i {
      SharedIsAtSlash(e, p1, p2, n);
    }
    if i >= 0 {
      assert p1[..n][i] == p2[..n][i];
      assert p1[..i] == p1[..n][..i] == p2[..n][..i] == p2[..i];
    }
  }

  /** `ffpath_parent`; `None` stands for its failure. */
  method Parent(p1: seq<byte>, p2: seq<byte>) returns (dir: Option<seq<byte>>)
    ensures match dir
      case Some(d) => p1 != [] && p2 != [] && IsGreatest(d, p1, p2)
      case None => p1 == [] || p2 == [] || forall d :: !IsShared(d, p1, p2)
  {
    hide IsShared, IsGreatest;
    var n := Min(|p1|, |p2|);
    if n == 0 {
      return None;
    }
    var i := CmpN(p1, p2, n);
    if i == 0 {
      if |p1| == |p2| {
        WholePrefix(p1, p2, n);
        return Some(p1[..n]);
      }
      var s := if n == |p1| then p2 else p1;
      if s[n] == SLASH {
        WholePrefix(p1, p2, n);
        return Some(p1[..n]);
      }
    } else if i < 0 {
      n := -i - 1;
    } else {
      n := i - 1;
    }
    i := FindLastSlash(p1[..n]);
    LastSlash(p1, p2, n, i);
    if i < 0 {
      return None;
    }
    return Some(p1[..i]);
  }

  /** The answer does not depend on the order of the paths. */
  lemma ParentIsSymmetric(d1: seq<byte>, d2: seq<byte>, p1: seq<byte>, p2: seq<byte>)
    requires IsGreatest(d1, p1, p2) && IsGreatest(d2, p2, p1)
    ensures d1 == d2
  {
    assert IsShared(d2, p1, p2) && IsShared(d1, p2, p1);
    assert d1 == p1[..|d1|] && d2 == p1[..|d2|];
  }

  /** Of "/a" and "/ab" the shared parent is the root, written as the empty path: "/a" is not one. */
  lemma PrefixIsNoParent(p1: seq<byte>, p2: seq<byte>)
    requires p1 == [0x2f, 0x61] && p2 == [0x2f, 0x61, 0x62]
    ensures IsGreatest([], p1, p2) && !IsShared(p1, p1, p2)
  {
    forall e | IsShared(e, p1, p2) ensures |e| <= 0 {
      SharedIsAtSlash(e, p1, p2, 2);
    }
  }
}
