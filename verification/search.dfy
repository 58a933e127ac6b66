/**
 The player's catalog listing and its two searches. Both searches sort the
 library's videos by title, keep the unflagged ones that match, and then let
 the user pick one result by its 1-based number to play it.
 */
module Search {
  import opened Wrappers
  import opened Text
  import opened Seqs
  import opened Videos
  import opened TitleOrder
  import opened Player
  import Catalog

  /** The title contains the term, both lower-cased. */
  predicate TitleMatches(v: Video, term: string) {
    ContainsText(Lower(v.title), Lower(term))
  }

  /** A tag search term starts with '#'. */
  predicate IsTag(tag: string) {
    |tag| > 0 && tag[0] == '#'
  }

  /** The sequence describes `videos` one line each, in order. */
  ghost predicate DescribesInOrder(lines: seq<string>, videos: seq<Video>) {
    |lines| == |videos| && forall i :: 0 <= i < |lines| ==> lines[i] == ToString(videos[i])
  }

  /** `showAllVideos`: every video of the library, flagged or not, described in title order. */
  function ShowAllVideos(s: State): (lines: seq<string>)
    ensures exists sorted ::
      && multiset(sorted) == multiset(Catalog.Listing(s.library))
      && SortedByTitle(sorted)
      && DescribesInOrder(lines, sorted)
    ensures |lines| == |Catalog.Listing(s.library)|
  {
    var sorted := Sort(Catalog.Listing(s.library));
    var lines := seq(|sorted|, i requires 0 <= i < |sorted| => ToString(sorted[i]));
    assert DescribesInOrder(lines, sorted);
    lines
  }

  /**
   The library sorted by title, then filtered to the unflagged videos that
   satisfy `matches`.
   */
  function Results(lib: Catalog.Library, matches: Video -> bool): (r: seq<Video>)
    ensures forall v :: v in r <==> v in Catalog.Listing(lib) && !v.flagged && matches(v)
    ensures forall v :: multiset(r)[v] == if matches(v) && !v.flagged then multiset(Catalog.Listing(lib))[v] else 0
    ensures Catalog.Valid(lib) ==> NoDups(r)
    ensures SortedByTitle(r)
  {
    var sorted := Sort(Catalog.Listing(lib));
    var keep := (v: Video) => matches(v) && !v.flagged;
    var r := Filter(sorted, keep);
    assert Catalog.Valid(lib) ==> NoDups(r) by {
      if Catalog.Valid(lib) {
        Catalog.ListingDistinct(lib);
        CountsAtMostOneNoDups(r);
      }
    }
    FilterKeepsSorted(sorted, keep);
    assert forall v :: v in sorted <==> v in Catalog.Listing(lib) by {
      forall v
        ensures v in sorted <==> v in Catalog.Listing(lib)
      {
        assert v in sorted <==> v in multiset(sorted);
      }
    }
    r
  }

  /** The results of `searchVideos` for `term`. */
  function TitleResults(lib: Catalog.Library, term: string): (r: seq<Video>)
    ensures forall v :: v in r <==> v in Catalog.Listing(lib) && !v.flagged && TitleMatches(v, term)
    ensures forall v :: multiset(r)[v] == if TitleMatches(v, term) && !v.flagged then multiset(Catalog.Listing(lib))[v] else 0
    ensures Catalog.Valid(lib) ==> NoDups(r)
    ensures SortedByTitle(r)
  {
    Results(lib, (v: Video) => TitleMatches(v, term))
  }

  /**
   The results of `searchVideosWithTag` for `tag`: nothing unless the term
   starts with '#', then the videos carrying exactly that tag.
   */
  function TagResults(lib: Catalog.Library, tag: string): (r: seq<Video>)
    ensures !IsTag(tag) ==> r == []
    ensures IsTag(tag) ==> forall v :: v in r <==> v in Catalog.Listing(lib) && !v.flagged && tag in v.tags
    ensures IsTag(tag) ==> forall v :: multiset(r)[v] == if tag in v.tags && !v.flagged then multiset(Catalog.Listing(lib))[v] else 0
    ensures Catalog.Valid(lib) ==> NoDups(r)
    ensures SortedByTitle(r)
  {
    if IsTag(tag) then Results(lib, (v: Video) => tag in v.tags) else []
  }

  /**
   The result the user's answer picks: a number n in 1..|results| picks
   `results[n-1]`; anything else, including no number at all, picks nothing.
   */
  function Chosen(results: seq<Video>, selection: Option<int>): (r: Option<Video>)
    ensures r.Some? <==> selection.Some? && 1 <= selection.value <= |results|
    ensures r.Some? ==> r.value == results[selection.value - 1] && r.value in results
  {
    if selection.Some? && 1 <= selection.value <= |results| then Some(results[selection.value - 1]) else None
  }

  /** The state after a search and the results it showed. */
  datatype SearchStep = SearchStep(next: State, results: seq<Video>)

  /** Plays the chosen result, if any; without a choice the state is unchanged. */
  function PlayChosen(s: State, results: seq<Video>, selection: Option<int>): (r: State)
    requires forall v :: v in results ==> v in Catalog.Listing(s.library) && !v.flagged
    ensures Chosen(results, selection).None? ==> r == s
    ensures Valid(s) && Chosen(results, selection).Some? ==>
      && r.playing == Some(results[selection.value - 1].id)
      && !r.paused
    ensures r.library == s.library && r.playlists == s.playlists
    ensures Valid(s) ==> Valid(r)
  {
    match Chosen(results, selection)
    case None => s
    case Some(v) =>
      assert Catalog.Valid(s.library) ==> v.id in s.library.videos && !s.library.videos[v.id].flagged by {
        if Catalog.Valid(s.library) {
          Catalog.ListingMembers(s.library, v);
        }
      }
      PlayVideo(s, v.id).next
  }

  /**
   `searchVideos`: the unflagged videos whose lower-cased title contains the
   lower-cased term, in title order; a valid 1-based selection plays one.
   */
  function SearchVideos(s: State, term: string, selection: Option<int>): (r: SearchStep)
    ensures forall v :: v in r.results <==> v in Catalog.Listing(s.library) && !v.flagged && TitleMatches(v, term)
    ensures Valid(s) ==> NoDups(r.results)
    ensures SortedByTitle(r.results)
    ensures !(selection.Some? && 1 <= selection.value <= |r.results|) ==> r.next == s
    ensures Valid(s) && selection.Some? && 1 <= selection.value <= |r.results| ==>
      && r.next.playing == Some(r.results[selection.value - 1].id)
      && !r.next.paused
    ensures r.next.library == s.library && r.next.playlists == s.playlists
    ensures Valid(s) ==> Valid(r.next)
  {
    var results := TitleResults(s.library, term);
    SearchStep(PlayChosen(s, results, selection), results)
  }

  /**
   `searchVideosWithTag`: for a term starting with '#', the unflagged videos
   carrying exactly that tag, in title order; any other term finds nothing.
   A valid 1-based selection plays one result.
   */
  function SearchVideosWithTag(s: State, tag: string, selection: Option<int>): (r: SearchStep)
    ensures !IsTag(tag) ==> r.results == [] && r.next == s
    ensures IsTag(tag) ==> forall v :: v in r.results <==> v in Catalog.Listing(s.library) && !v.flagged && tag in v.tags
    ensures Valid(s) ==> NoDups(r.results)
    ensures SortedByTitle(r.results)
    ensures !(selection.Some? && 1 <= selection.value <= |r.results|) ==> r.next == s
    ensures Valid(s) && selection.Some? && 1 <= selection.value <= |r.results| ==>
      && r.next.playing == Some(r.results[selection.value - 1].id)
      && !r.next.paused
    ensures r.next.library == s.library && r.next.playlists == s.playlists
    ensures Valid(s) ==> Valid(r.next)
  {
    var results := TagResults(s.library, tag);
    SearchStep(PlayChosen(s, results, selection), results)
  }

  /** Neither search offers a flagged video, so a selection never starts one. */
  lemma SearchNeverPlaysFlagged(s: State, term: string, selection: Option<int>)
    requires Valid(s)
    ensures var t := SearchVideos(s, term, selection).next;
      t.playing.Some? ==> t.playing.value in t.library.videos && !t.library.videos[t.playing.value].flagged
    ensures var t := SearchVideosWithTag(s, term, selection).next;
      t.playing.Some? ==> t.playing.value in t.library.videos && !t.library.videos[t.playing.value].flagged
  {
  }
}
