/**
 `Collections.sort(videos, Comparator.comparing(Video::getTitle))`: a stable
 insertion sort on titles under `String.compareTo`.
 */
module TitleOrder {
  import opened Text
  import opened Seqs
  import opened Videos

  /** Titles never decrease along the sequence. */
  predicate SortedByTitle(s: seq<Video>) {
    forall i, j :: 0 <= i < j < |s| ==> TitleLe(s[i].title, s[j].title)
  }

  /** A video no later than the head of a sorted sequence can go in front of it. */
  lemma ConsKeepsSorted(v: Video, s: seq<Video>)
    requires SortedByTitle(s)
    requires |s| == 0 || TitleLe(v.title, s[0].title)
    ensures SortedByTitle([v] + s)
  {
    forall j | 0 <= j < |s|
      ensures TitleLe(v.title, s[j].title)
    {
      if j > 0 {
        TitleLeTransitive(v.title, s[0].title, s[j].title);
      }
    }
  }

  /**
   When `v` sorts after the head of a sorted `s`, the head can stay in front
   of any sorted arrangement of the tail plus `v`.
   */
  lemma HeadBeforeInserted(v: Video, s: seq<Video>, rest: seq<Video>)
    requires SortedByTitle(s) && |s| > 0
    requires !TitleLe(v.title, s[0].title)
    requires SortedByTitle(rest) && multiset(rest) == multiset(s[1..]) + multiset{v}
    ensures SortedByTitle([s[0]] + rest)
  {
    TitleLeTotal(v.title, s[0].title);
    forall j | 0 <= j < |rest|
      ensures TitleLe(s[0].title, rest[j].title)
    {
      assert rest[j] in multiset(rest);
      if rest[j] != v {
        assert rest[j] in s[1..];
      }
    }
  }

  /** Puts `v` in front of the first video whose title is not smaller than its own. */
  function Insert(v: Video, s: seq<Video>): (r: seq<Video>)
    ensures multiset(r) == multiset(s) + multiset{v}
    ensures SortedByTitle(s) ==> SortedByTitle(r)
  {
    if |s| == 0 then [v]
    else if TitleLe(v.title, s[0].title) then
      assert SortedByTitle(s) ==> SortedByTitle([v] + s) by {
        if SortedByTitle(s) {
          ConsKeepsSorted(v, s);
        }
      }
      [v] + s
    else
      var rest := Insert(v, s[1..]);
      assert s == [s[0]] + s[1..];
      assert SortedByTitle(s) ==> SortedByTitle([s[0]] + rest) by {
        if SortedByTitle(s) {
          HeadBeforeInserted(v, s, rest);
        }
      }
      [s[0]] + rest
  }

  /** The videos of `s` in ascending title order; equal titles keep their relative order. */
  function Sort(s: seq<Video>): (r: seq<Video>)
    ensures multiset(r) == multiset(s)
    ensures SortedByTitle(r)
  {
    if |s| == 0 then []
    else
      assert s == [s[0]] + s[1..];
      Insert(s[0], Sort(s[1..]))
  }

  /** Keeping some of the videos of a sorted sequence leaves it sorted. */
  lemma {:induction false} FilterKeepsSorted(s: seq<Video>, keep: Video -> bool)
    requires SortedByTitle(s)
    ensures SortedByTitle(Filter(s, keep))
    decreases |s|
  {
    if |s| != 0 {
      var rest := Filter(s[1..], keep);
      FilterKeepsSorted(s[1..], keep);
      if keep(s[0]) {
        if |rest| != 0 {
          assert rest[0] in s[1..];
          var k :| 0 <= k < |s[1..]| && s[1..][k] == rest[0];
          assert s[k + 1] == rest[0];
        }
        ConsKeepsSorted(s[0], rest);
      }
    }
  }
}
