/** Sequence operations with the meaning of Java's `ArrayList` methods. */
module Seqs {

  /** No element occurs twice. */
  predicate NoDups<T(==)>(s: seq<T>) {
    forall i, j :: 0 <= i < j < |s| ==> s[i] != s[j]
  }

  /** Position `i` holds the first occurrence of `x` in `s`. */
  predicate FirstAt<T(==)>(s: seq<T>, x: T, i: int) {
    0 <= i < |s| && s[i] == x && x !in s[..i]
  }

  /** `ArrayList.indexOf`: the first position of `x`, or -1 when it is absent. */
  function IndexOf<T(==)>(s: seq<T>, x: T): (r: int)
    ensures r == -1 <==> x !in s
    ensures r != -1 ==> FirstAt(s, x, r)
  {
    if |s| == 0 then -1
    else if s[0] == x then 0
    else
      var k := IndexOf(s[1..], x);
      assert s == [s[0]] + s[1..];
      if k == -1 then -1
      else
        assert s[..k + 1] == [s[0]] + s[1..][..k];
        k + 1
  }

  /** `ArrayList.remove(Object)`: drops the first occurrence of `x`, if there is one. */
  function RemoveFirst<T(==)>(s: seq<T>, x: T): (r: seq<T>)
    ensures x !in s ==> r == s
    ensures x in s ==> |r| == |s| - 1
    ensures x in s ==> exists i :: FirstAt(s, x, i) && r == s[..i] + s[i + 1..]
    ensures multiset(r) == multiset(s) - multiset{x}
  {
    var i := IndexOf(s, x);
    if i == -1 then
      assert multiset(s)[x] == 0;
      s
    else
      assert s == s[..i] + [x] + s[i + 1..];
      s[..i] + s[i + 1..]
  }

  /** Removing the first occurrence from a duplicate-free sequence removes every occurrence. */
  lemma RemoveFirstFromDistinct<T>(s: seq<T>, x: T)
    requires NoDups(s)
    ensures x !in RemoveFirst(s, x)
    ensures NoDups(RemoveFirst(s, x))
  {
    var r := RemoveFirst(s, x);
    if x in s {
      var i := IndexOf(s, x);
      assert r == s[..i] + s[i + 1..];
      assert |r| == |s| - 1;
      forall j | 0 <= j < |r|
        ensures r[j] == s[if j < i then j else j + 1]
      {
      }
      forall j, k | 0 <= j < k < |r|
        ensures r[j] != r[k]
      {
        var j', k' := (if j < i then j else j + 1), (if k < i then k else k + 1);
        assert j' < k' && r[j] == s[j'] && r[k] == s[k'];
      }
      forall j | 0 <= j < |r|
        ensures r[j] != x
      {
        var j' := if j < i then j else j + 1;
        assert j' != i && r[j] == s[j'] && s[i] == x;
      }
    }
  }

  /** Removing what was just appended gives back the original, when it was absent before. */
  lemma RemoveFirstAfterAppend<T>(s: seq<T>, x: T)
    requires x !in s
    ensures RemoveFirst(s + [x], x) == s
  {
    assert IndexOf(s + [x], x) == |s| by {
      assert FirstAt(s + [x], x, IndexOf(s + [x], x));
      assert (s + [x])[..|s|] == s;
    }
    assert (s + [x])[..|s|] == s;
  }

  /** The elements of `s` that satisfy `keep`, in their original order. */
  function Filter<T(!new)>(s: seq<T>, keep: T -> bool): (r: seq<T>)
    ensures forall v :: multiset(r)[v] == if keep(v) then multiset(s)[v] else 0
    ensures forall v :: v in r <==> v in s && keep(v)
    ensures |r| <= |s|
  {
    if |s| == 0 then []
    else
      assert s == [s[0]] + s[1..];
      (if keep(s[0]) then [s[0]] else []) + Filter(s[1..], keep)
  }

  /** Filtering a concatenation filters each part and keeps them in order. */
  lemma {:induction false} FilterAppend<T(!new)>(s: seq<T>, t: seq<T>, keep: T -> bool)
    ensures Filter(s + t, keep) == Filter(s, keep) + Filter(t, keep)
    decreases |s|
  {
    if |s| == 0 {
      assert s + t == t;
    } else {
      assert (s + t)[1..] == s[1..] + t;
      FilterAppend(s[1..], t, keep);
    }
  }

  /** A sequence in which nothing occurs more than once has no duplicates. */
  lemma CountsAtMostOneNoDups<T>(s: seq<T>)
    requires forall x :: multiset(s)[x] <= 1
    ensures NoDups(s)
  {
    forall i, j | 0 <= i < j < |s|
      ensures s[i] != s[j]
    {
      assert s == s[..j] + s[j..];
      assert multiset(s) == multiset(s[..j]) + multiset(s[j..]);
      assert s[j] in multiset(s[j..]);
      assert multiset(s)[s[j]] <= 1;
      assert multiset(s[..j])[s[j]] == 0;
      assert s[i] in s[..j];
    }
  }
}
