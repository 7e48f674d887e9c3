/** The string searching and splitting that `str` offers, on sequences of Unicode scalar values. */
module Strings {
  import opened Common

  /** `p` occurs in `t` at position `i`. */
  predicate OccursAt(t: string, p: string, i: int) {
    0 <= i <= |t| - |p| && t[i..i + |p|] == p
  }

  ghost predicate Contains(t: string, p: string) {
    exists i :: OccursAt(t, p, i)
  }

  /** `str::find`: the first occurrence at or after `i`. */
  function FindFrom(t: string, p: string, i: nat): (r: Option<nat>)
    ensures r.Some? ==> i <= r.value && OccursAt(t, p, r.value)
    ensures forall j: int {:trigger OccursAt(t, p, j)} ::
      i <= j && (r.Some? ==> j < r.value) ==> !OccursAt(t, p, j)
    decreases |t| - i
  {
    if i + |p| > |t| then None
    else if OccursAt(t, p, i) then Some(i)
    else FindFrom(t, p, i + 1)
  }

  function Find(t: string, p: string): (r: Option<nat>)
    ensures r.Some? ==> OccursAt(t, p, r.value)
    ensures forall j: int {:trigger OccursAt(t, p, j)} ::
      (r.Some? ==> j < r.value) ==> !OccursAt(t, p, j)
  {
    FindFrom(t, p, 0)
  }

  /** Texts that agree on a stretch, `j` in one where `i` is in the other, have the same slice there. */
  lemma {:induction false} SlicesAgree(s: string, i: nat, t: string, j: nat, n: nat)
    requires i + n <= |s| && j + n <= |t|
    requires forall x :: i <= x < i + n ==> s[x] == t[x - i + j]
    ensures s[i..i + n] == t[j..j + n]
  {
    var u, v := s[i..i + n], t[j..j + n];
    forall x | 0 <= x < n ensures u[x] == v[x] {
      assert s[i + x] == t[i + x - i + j];
    }
    assert u == v;
  }

  /** An occurrence inside a slice is an occurrence in the whole. */
  lemma {:induction false} OccursInSlice(t: string, lo: nat, hi: nat, p: string, i: int)
    requires lo <= hi <= |t|
    requires OccursAt(t[lo..hi], p, i)
    ensures OccursAt(t, p, lo + i)
  {
    var inner, outer := t[lo..hi][i..i + |p|], t[lo + i..lo + i + |p|];
    forall k | 0 <= k < |p| ensures inner[k] == outer[k] {
    }
    assert inner == outer;
  }

  /** A piece cut off by the separator `c`, which the piece does not hold itself. */
  function SplitOnce(s: string, c: char): (r: Option<(string, string)>)
    ensures r.Some? <==> c in s
    ensures r.Some? ==> s == r.value.0 + [c] + r.value.1 && c !in r.value.0
  {
    if s == "" then None
    else if s[0] == c then Some(("", s[1..]))
    else
      match SplitOnce(s[1..], c)
      case None => None
      case Some(cut) => Some(([s[0]] + cut.0, cut.1))
  }

  lemma {:induction false} SplitOnceFirst(a: string, c: char, b: string)
    requires c !in a
    ensures SplitOnce(a + [c] + b, c) == Some((a, b))
  {
    var s := a + [c] + b;
    if a == "" {
      assert s[1..] == b;
    } else {
      assert s[1..] == a[1..] + [c] + b;
      SplitOnceFirst(a[1..], c, b);
      assert [s[0]] + a[1..] == a;
    }
  }

  /** `str::rsplit_once`: cut at the last `c`. */
  function RSplitOnce(s: string, c: char): (r: Option<(string, string)>)
    ensures r.Some? <==> c in s
    ensures r.Some? ==> s == r.value.0 + [c] + r.value.1 && c !in r.value.1
  {
    if s == "" then None
    else if s[|s| - 1] == c then Some((s[..|s| - 1], ""))
    else
      match RSplitOnce(s[..|s| - 1], c)
      case None => None
      case Some(cut) => Some((cut.0, cut.1 + [s[|s| - 1]]))
  }

  lemma {:induction false} RSplitOnceLast(a: string, c: char, b: string)
    requires c !in b
    ensures RSplitOnce(a + [c] + b, c) == Some((a, b))
  {
    var s := a + [c] + b;
    if b == "" {
      assert s[..|s| - 1] == a;
    } else {
      assert s[..|s| - 1] == a + [c] + b[..|b| - 1];
      RSplitOnceLast(a, c, b[..|b| - 1]);
      assert b[..|b| - 1] + [s[|s| - 1]] == b;
    }
  }

  /** `str::split`: the pieces between the separators, one more than there are separators. */
  function Split(s: string, c: char): (r: seq<string>)
    ensures |r| > 0
    ensures forall k :: 0 <= k < |r| ==> c !in r[k]
    ensures Join(r, c) == s
    decreases |s|
  {
    match SplitOnce(s, c)
    case None => [s]
    case Some(cut) => [cut.0] + Split(cut.1, c)
  }

  function Join(parts: seq<string>, c: char): string
    requires |parts| > 0
  {
    if |parts| == 1 then parts[0] else parts[0] + [c] + Join(parts[1..], c)
  }

  /** Splitting what was joined gives the pieces back. */
  lemma {:induction false} SplitJoin(parts: seq<string>, c: char)
    requires |parts| > 0
    requires forall k :: 0 <= k < |parts| ==> c !in parts[k]
    ensures Split(Join(parts, c), c) == parts
  {
    if |parts| == 1 {
    } else {
      SplitOnceFirst(parts[0], c, Join(parts[1..], c));
      SplitJoin(parts[1..], c);
    }
  }

  /** A character of a joined text is the separator or comes from a piece. */
  lemma {:induction false} JoinHolds(parts: seq<string>, c: char, x: char)
    requires |parts| > 0 && x != c
    requires forall k :: 0 <= k < |parts| ==> x !in parts[k]
    ensures x !in Join(parts, c)
  {
    if |parts| > 1 {
      JoinHolds(parts[1..], c, x);
    }
  }
}
