/** Generic facts about sequences shared by the string and map models. */
module Sequences {

  /** Position of the first occurrence of `x` in `s` (JavaScript's `indexOf` on an element that is there). */
  function IndexOf<T(==)>(s: seq<T>, x: T): (r: nat)
    requires x in s
    ensures r < |s| && s[r] == x && x !in s[..r]
  {
    if s[0] == x then 0
    else
      var r' := IndexOf(s[1..], x);
      assert s[..r' + 1] == [s[0]] + s[1..][..r'];
      r' + 1
  }

  /** No element occurs twice. */
  predicate Unique<T(==)>(s: seq<T>) {
    forall i, j | 0 <= i < j < |s| :: s[i] != s[j]
  }

  /** `x` occurs somewhere inside `s` as a contiguous block. */
  predicate IsInfix<T(==)>(x: seq<T>, s: seq<T>) {
    exists i | 0 <= i <= |s| :: x <= s[i..]
  }

  /** The first occurrence is the only position satisfying IndexOf's contract. */
  lemma IndexOfIsFirst<T>(s: seq<T>, x: T, r: nat)
    requires r < |s| && s[r] == x && x !in s[..r]
    ensures IndexOf(s, x) == r
  {
    var q := IndexOf(s, x);
  }

  lemma IndexOfUnique<T>(s: seq<T>, i: nat)
    requires Unique(s) && i < |s|
    ensures IndexOf(s, s[i]) == i
  {
    assert s[i] !in s[..i] by {
      forall j | 0 <= j < i ensures s[..i][j] != s[i] { }
    }
    IndexOfIsFirst(s, s[i], i);
  }

  lemma IndexOfAppend<T>(s: seq<T>, y: T, x: T)
    requires x in s
    ensures IndexOf(s + [y], x) == IndexOf(s, x)
  {
    var r := IndexOf(s, x);
    assert (s + [y])[..r] == s[..r];
    IndexOfIsFirst(s + [y], x, r);
  }

  lemma IndexOfAppendNew<T>(s: seq<T>, x: T)
    requires x !in s
    ensures IndexOf(s + [x], x) == |s|
  {
    assert (s + [x])[..|s|] == s;
    IndexOfIsFirst(s + [x], x, |s|);
  }

  lemma IndexOfAfterPrefix<T>(a: seq<T>, x: T, b: seq<T>)
    requires x !in a
    ensures IndexOf(a + [x] + b, x) == |a|
  {
    assert (a + [x] + b)[..|a|] == a;
    IndexOfIsFirst(a + [x] + b, x, |a|);
  }

  lemma UniqueCons<T>(x: T, s: seq<T>)
    requires Unique([x] + s)
    ensures Unique(s) && x !in s
  {
    forall i, j | 0 <= i < j < |s| ensures s[i] != s[j] {
      assert ([x] + s)[i + 1] == s[i] && ([x] + s)[j + 1] == s[j];
    }
    forall k | 0 <= k < |s| ensures s[k] != x {
      assert ([x] + s)[0] == x && ([x] + s)[k + 1] == s[k];
    }
  }

  lemma AppendAssoc<T>(a: seq<T>, b: seq<T>, c: seq<T>)
    ensures (a + b) + c == a + (b + c)
  {
  }

  lemma InfixOfLeft<T>(x: seq<T>, a: seq<T>, b: seq<T>)
    requires IsInfix(x, a)
    ensures IsInfix(x, a + b)
  {
    var i :| 0 <= i <= |a| && x <= a[i..];
    assert a[i..] <= (a + b)[i..];
  }

  lemma InfixOfRight<T>(x: seq<T>, a: seq<T>, b: seq<T>)
    requires IsInfix(x, b)
    ensures IsInfix(x, a + b)
  {
    var i :| 0 <= i <= |b| && x <= b[i..];
    assert (a + b)[|a| + i..] == b[i..];
  }

  lemma PrefixIsInfix<T>(x: seq<T>, s: seq<T>)
    requires x <= s
    ensures IsInfix(x, s)
  {
    assert s[0..] == s;
  }

  lemma InfixTransitive<T>(x: seq<T>, y: seq<T>, s: seq<T>)
    requires IsInfix(x, y) && IsInfix(y, s)
    ensures IsInfix(x, s)
  {
    var i :| 0 <= i <= |y| && x <= y[i..];
    var j :| 0 <= j <= |s| && y <= s[j..];
    forall k | 0 <= k < |x| ensures s[j + i..][k] == x[k] {
      assert y[i..][k] == x[k] && s[j..][i + k] == y[i + k];
    }
    assert x <= s[j + i..];
  }
}
