/** Sequence operations the widget borrows from JavaScript's Array:
    `filter`, `find`, `indexOf`, `splice(i, 1)`, and the
    properties (no duplicates, subsequence) used to state what they keep. */
module Seqs {

  /** No element occurs twice. */
  predicate NoDup<T(==)>(s: seq<T>) {
    forall i, j :: 0 <= i < j < |s| ==> s[i] != s[j]
  }

  /** `xs` is obtained from `ys` by deleting elements, without reordering. */
  ghost predicate IsSubsequence<T>(xs: seq<T>, ys: seq<T>)
    decreases |ys|
  {
    if xs == [] then true
    else if ys == [] then false
    else (xs[0] == ys[0] && IsSubsequence(xs[1..], ys[1..])) || IsSubsequence(xs, ys[1..])
  }

  /** `Array.prototype.filter`: the elements satisfying `p`, in their original order. */
  function Filter<T(==)>(s: seq<T>, p: T -> bool): (r: seq<T>)
    ensures forall k :: 0 <= k < |r| ==> r[k] in s && p(r[k])
    ensures forall k :: 0 <= k < |s| && p(s[k]) ==> s[k] in r
    ensures IsSubsequence(r, s)
    ensures forall x :: x in s ==> multiset(r)[x] == if p(x) then multiset(s)[x] else 0
  {
    if s == [] then []
    else
      var rest := Filter(s[1..], p);
      assert s == [s[0]] + s[1..];
      assert s[0] !in s[1..] ==> s[0] !in rest;
      if p(s[0]) then
        assert ([s[0]] + rest)[1..] == rest;
        [s[0]] + rest
      else rest
  }

  /** `s.filter(y => y !== x)`: every occurrence of `x` dropped. */
  function Without<T(==)>(s: seq<T>, x: T): (r: seq<T>)
    ensures x !in r
    ensures forall k :: 0 <= k < |r| ==> r[k] in s
    ensures forall k :: 0 <= k < |s| && s[k] != x ==> s[k] in r
    ensures multiset(r) == multiset(s)[x := 0]
    ensures IsSubsequence(r, s)
  {
    Filter(s, y => y != x)
  }

  /** The index search inside `Array.prototype.find`: the first index whose element satisfies `p`, or -1. */
  function FirstIndex<T>(s: seq<T>, p: T -> bool): (r: int)
    ensures -1 <= r < |s|
    ensures r == -1 <==> forall k :: 0 <= k < |s| ==> !p(s[k])
    ensures 0 <= r ==> p(s[r]) && forall k :: 0 <= k < r ==> !p(s[k])
  {
    if s == [] then -1
    else if p(s[0]) then 0
    else
      var r := FirstIndex(s[1..], p);
      if r == -1 then -1 else r + 1
  }

  /** `Array.prototype.indexOf`: the first index holding `x`, or -1 when `x` is absent. */
  function IndexOf<T(==)>(s: seq<T>, x: T): (r: int)
    ensures -1 <= r < |s|
    ensures r == -1 <==> x !in s
    ensures 0 <= r ==> r < |s| && s[r] == x && x !in s[..r]
  {
    FirstIndex(s, y => y == x)
  }

  /** `s.splice(i, 1)`: the element at index `i` taken out. */
  function RemoveAt<T>(s: seq<T>, i: nat): (r: seq<T>)
    requires i < |s|
    ensures |r| == |s| - 1
    ensures forall k :: 0 <= k < i ==> r[k] == s[k]
    ensures forall k :: i <= k < |r| ==> r[k] == s[k + 1]
  {
    s[..i] + s[i + 1..]
  }

  // ---------------------------------------------------------------------
  // Filter keeps order and distributes over concatenation
  // ---------------------------------------------------------------------

  lemma {:induction false} FilterConcat<T>(a: seq<T>, b: seq<T>, p: T -> bool)
    ensures Filter(a + b, p) == Filter(a, p) + Filter(b, p)
  {
    if a == [] {
      assert a + b == b;
    } else {
      assert (a + b)[0] == a[0];
      assert (a + b)[1..] == a[1..] + b;
      FilterConcat(a[1..], b, p);
    }
  }

  lemma {:induction false} FilterKeepsAll<T>(s: seq<T>, p: T -> bool)
    requires forall x :: x in s ==> p(x)
    ensures Filter(s, p) == s
  {
    if s != [] {
      assert s[0] in s;
      FilterKeepsAll(s[1..], p);
      assert [s[0]] + s[1..] == s;
    }
  }

  lemma {:induction false} FilterCongruent<T>(s: seq<T>, p: T -> bool, q: T -> bool)
    requires forall x :: x in s ==> p(x) == q(x)
    ensures Filter(s, p) == Filter(s, q)
  {
    if s != [] {
      assert s[0] in s;
      FilterCongruent(s[1..], p, q);
    }
  }

  // ---------------------------------------------------------------------
  // What a subsequence inherits from the sequence it came from
  // ---------------------------------------------------------------------

  lemma {:induction false} SubsequenceMembers<T>(xs: seq<T>, ys: seq<T>)
    requires IsSubsequence(xs, ys)
    ensures forall x :: x in xs ==> x in ys
    decreases |ys|
  {
    if xs != [] {
      if xs[0] == ys[0] && IsSubsequence(xs[1..], ys[1..]) {
        SubsequenceMembers(xs[1..], ys[1..]);
        assert xs == [xs[0]] + xs[1..];
      } else {
        SubsequenceMembers(xs, ys[1..]);
      }
    }
  }

  /** A subsequence never holds an element more often than its source does. */
  lemma {:induction false} SubsequenceMultiset<T>(xs: seq<T>, ys: seq<T>)
    requires IsSubsequence(xs, ys)
    ensures multiset(xs) <= multiset(ys)
    decreases |ys|
  {
    if xs != [] {
      assert ys == [ys[0]] + ys[1..];
      if xs[0] == ys[0] && IsSubsequence(xs[1..], ys[1..]) {
        SubsequenceMultiset(xs[1..], ys[1..]);
        assert xs == [xs[0]] + xs[1..];
      } else {
        SubsequenceMultiset(xs, ys[1..]);
      }
    }
  }

  lemma {:induction false} SubsequenceNoDup<T>(xs: seq<T>, ys: seq<T>)
    requires IsSubsequence(xs, ys) && NoDup(ys)
    ensures NoDup(xs)
    decreases |ys|
  {
    if xs != [] {
      assert NoDup(ys[1..]) by {
        forall i, j | 0 <= i < j < |ys[1..]| ensures ys[1..][i] != ys[1..][j] {
          assert ys[1..][i] == ys[i + 1] && ys[1..][j] == ys[j + 1];
        }
      }
      if xs[0] == ys[0] && IsSubsequence(xs[1..], ys[1..]) {
        SubsequenceNoDup(xs[1..], ys[1..]);
        SubsequenceMembers(xs[1..], ys[1..]);
        forall i, j | 0 <= i < j < |xs| ensures xs[i] != xs[j] {
          if i == 0 {
            assert xs[j] == xs[1..][j - 1];
            assert xs[j] in ys[1..];
            var m :| 0 <= m < |ys[1..]| && ys[1..][m] == xs[j];
            assert ys[m + 1] == xs[j];
          } else {
            assert xs[i] == xs[1..][i - 1] && xs[j] == xs[1..][j - 1];
          }
        }
      } else {
        SubsequenceNoDup(xs, ys[1..]);
      }
    }
  }

  // ---------------------------------------------------------------------
  // Removing a unique element: filter and splice agree
  // ---------------------------------------------------------------------

  /** Filtering with a predicate that rejects exactly the element at index `i` splices out `i`. */
  lemma {:induction false} FilterRejectingOne<T>(s: seq<T>, p: T -> bool, i: nat)
    requires i < |s| && !p(s[i])
    requires forall k :: 0 <= k < |s| && k != i ==> p(s[k])
    ensures Filter(s, p) == RemoveAt(s, i)
    decreases i
  {
    var t := s[1..];
    if i == 0 {
      assert forall x :: x in t ==> p(x);
      FilterKeepsAll(t, p);
    } else {
      assert forall k :: 0 <= k < |t| && k != i - 1 ==> p(t[k]) by {
        forall k | 0 <= k < |t| && k != i - 1 ensures p(t[k]) {
          assert t[k] == s[k + 1];
        }
      }
      FilterRejectingOne(t, p, i - 1);
      RemoveAtCons(s, i);
    }
  }

  /** Splicing past the head keeps the head and splices the tail. */
  lemma RemoveAtCons<T>(s: seq<T>, i: nat)
    requires 0 < i < |s|
    ensures RemoveAt(s, i) == [s[0]] + RemoveAt(s[1..], i - 1)
  {
  }

  /** In a duplicate-free sequence, dropping every `s[i]` is the same as splicing out index `i`. */
  lemma WithoutUniqueIsRemoveAt<T>(s: seq<T>, i: nat)
    requires NoDup(s) && i < |s|
    ensures Without(s, s[i]) == RemoveAt(s, i)
  {
    FilterRejectingOne(s, y => y != s[i], i);
  }

  lemma {:induction false} SubsequenceReflexive<T>(s: seq<T>)
    ensures IsSubsequence(s, s)
    decreases |s|
  {
    if s != [] {
      SubsequenceReflexive(s[1..]);
    }
  }

  /** Splicing out one element keeps the others in order and removes exactly one occurrence. */
  lemma RemoveAtIsSubsequence<T>(s: seq<T>, i: nat)
    requires i < |s|
    ensures IsSubsequence(RemoveAt(s, i), s)
    ensures multiset(RemoveAt(s, i)) == multiset(s) - multiset{s[i]}
  {
    RemoveAtKeepsOrder(s, i);
    RemoveAtMultiset(s, i);
  }

  lemma RemoveAtMultiset<T>(s: seq<T>, i: nat)
    requires i < |s|
    ensures multiset(RemoveAt(s, i)) == multiset(s) - multiset{s[i]}
  {
    var a, b := s[..i], s[i + 1..];
    calc {
      multiset(s);
      { assert s == a + ([s[i]] + b); }
      multiset(a + ([s[i]] + b));
      multiset(a) + multiset([s[i]] + b);
      multiset(a) + (multiset{s[i]} + multiset(b));
    }
    assert RemoveAt(s, i) == a + b;
  }

  lemma {:induction false} RemoveAtKeepsOrder<T>(s: seq<T>, i: nat)
    requires i < |s|
    ensures IsSubsequence(RemoveAt(s, i), s)
    decreases i
  {
    var r := RemoveAt(s, i);
    if i == 0 {
      assert r == s[1..];
      SubsequenceReflexive(s[1..]);
    } else {
      RemoveAtKeepsOrder(s[1..], i - 1);
      assert r[0] == s[0];
      assert r[1..] == RemoveAt(s[1..], i - 1);
    }
  }

  /** Dropping an element that was just appended to a sequence without it gives the sequence back. */
  lemma WithoutAppended<T>(s: seq<T>, x: T)
    requires x !in s
    ensures Without(s + [x], x) == s
  {
    FilterConcat(s, [x], y => y != x);
    FilterKeepsAll(s, y => y != x);
  }
}
