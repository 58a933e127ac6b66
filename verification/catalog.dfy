/**
 The video library the player reads from: videos by id, and the fixed order
 in which the library lists them. The library's loading code is not part of
 this model; a library is given as a value.
 */
module Catalog {
  import opened Wrappers
  import opened Seqs
  import opened Videos

  datatype Library = Library(videos: map<string, Video>, order: seq<string>)

  /**
   Each video is stored under its own id with consistent moderation fields,
   and the listing order names every stored id exactly once.
   */
  predicate Valid(lib: Library) {
    && (forall id :: id in lib.videos ==> lib.videos[id].id == id && WellFlagged(lib.videos[id]))
    && (forall id :: id in lib.order ==> id in lib.videos)
    && (forall id :: id in lib.videos ==> id in lib.order)
    && NoDups(lib.order)
  }

  /** `getVideo`: the video stored under `id`, or None (null) when there is none. */
  function GetVideo(lib: Library, id: string): (r: Option<Video>)
    ensures r.Some? <==> id in lib.videos
    ensures r.Some? ==> r.value == lib.videos[id]
  {
    if id in lib.videos then Some(lib.videos[id]) else None
  }

  /** The stored videos named by `order`, in that order; names without a video are skipped. */
  function ListingOf(videos: map<string, Video>, order: seq<string>): (r: seq<Video>)
    ensures |r| <= |order|
  {
    if |order| == 0 then []
    else (if order[0] in videos then [videos[order[0]]] else []) + ListingOf(videos, order[1..])
  }

  /** `getVideos`: every video of the library, in listing order. */
  function Listing(lib: Library): seq<Video> {
    ListingOf(lib.videos, lib.order)
  }

  /** A video is listed exactly when some listed id stores it. */
  lemma {:induction false} ListingOfMembers(videos: map<string, Video>, order: seq<string>, v: Video)
    ensures v in ListingOf(videos, order) <==> exists k :: k in order && k in videos && videos[k] == v
    decreases |order|
  {
    if |order| != 0 {
      ListingOfMembers(videos, order[1..], v);
      assert order == [order[0]] + order[1..];
    }
  }

  /** In a valid library, a video is listed exactly when it is the one stored under its id. */
  lemma ListingMembers(lib: Library, v: Video)
    requires Valid(lib)
    ensures v in Listing(lib) <==> v.id in lib.videos && lib.videos[v.id] == v
  {
    ListingOfMembers(lib.videos, lib.order, v);
    if v.id in lib.videos && lib.videos[v.id] == v {
      assert v.id in lib.order;
    }
  }

  /**
   Listing distinct ids of videos stored under their own ids lists no video
   twice.
   */
  lemma {:induction false} ListingOfCounts(videos: map<string, Video>, order: seq<string>)
    requires forall k :: k in videos ==> videos[k].id == k
    requires NoDups(order)
    ensures forall v :: multiset(ListingOf(videos, order))[v] <= 1
    decreases |order|
  {
    if |order| != 0 {
      var rest := ListingOf(videos, order[1..]);
      ListingOfCounts(videos, order[1..]);
      if order[0] in videos {
        var v0 := videos[order[0]];
        ListingOfMembers(videos, order[1..], v0);
        assert v0 !in rest by {
          forall k | k in order[1..] && k in videos
            ensures videos[k] != v0
          {
            var j :| 0 <= j < |order[1..]| && order[1..][j] == k;
            assert order[j + 1] == k;
          }
        }
      }
    }
  }

  /** A valid library lists each video at most once. */
  lemma ListingDistinct(lib: Library)
    requires Valid(lib)
    ensures forall v :: multiset(Listing(lib))[v] <= 1
    ensures NoDups(Listing(lib))
  {
    ListingOfCounts(lib.videos, lib.order);
    CountsAtMostOneNoDups(Listing(lib));
  }

  /**
   Stores `v` under `id`, as a setter called on the object `getVideo(id)`
   returns does; the set of ids and the order stay.
   */
  function Replace(lib: Library, id: string, v: Video): (r: Library)
    requires id in lib.videos
    ensures r.videos.Keys == lib.videos.Keys && r.order == lib.order
    ensures r.videos[id] == v
    ensures forall other :: other in lib.videos && other != id ==> r.videos[other] == lib.videos[other]
    ensures Valid(lib) && v.id == id && WellFlagged(v) ==> Valid(r)
  {
    Library(lib.videos[id := v], lib.order)
  }
}
