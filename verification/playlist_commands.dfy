/**
 The player's playlist commands. Playlists are found under the lower-cased
 form of the name the user types; the stored playlist keeps the casing it was
 created with.
 */
module PlaylistCommands {
  import opened Wrappers
  import opened Text
  import opened Seqs
  import opened Videos
  import opened Playlists
  import opened Player
  import Catalog

  /** The registry key for a typed playlist name. */
  function Key(name: string): string {
    Lower(name)
  }

  /** Playlists other than the one under `key` are the same in both maps. */
  ghost predicate OthersUnchanged(before: map<string, Playlist>, after: map<string, Playlist>, key: string) {
    forall k :: k != key ==> (k in before <==> k in after) && (k in before ==> before[k] == after[k])
  }

  /** The state with `p` stored under `key`; nothing else changes. */
  function Store(s: State, key: string, p: Playlist): (r: State)
    ensures key in r.playlists && r.playlists[key] == p
    ensures OthersUnchanged(s.playlists, r.playlists, key)
    ensures r.library == s.library && r.playing == s.playing && r.paused == s.paused
  {
    s.(playlists := s.playlists[key := p])
  }

  /** Storing the playlist a key already holds changes nothing. */
  lemma StoreSame(s: State, key: string)
    requires key in s.playlists
    ensures Store(s, key, s.playlists[key]) == s
  {
    assert s.playlists[key := s.playlists[key]] == s.playlists;
  }

  /** A second store under the same key replaces the first. */
  lemma StoreTwice(s: State, key: string, p: Playlist, q: Playlist)
    ensures Store(Store(s, key, p), key, q) == Store(s, key, q)
  {
    assert s.playlists[key := p][key := q] == s.playlists[key := q];
  }

  /** Storing a well-formed playlist under its own key keeps the registry invariant. */
  lemma StoreKeepsRegistryValid(s: State, key: string, p: Playlist)
    requires RegistryValid(s)
    requires Lower(p.name) == key && NoDups(p.videos)
    requires forall id :: id in p.videos ==> id in s.library.videos
    ensures RegistryValid(Store(s, key, p))
  {
  }

  /** Removing an id from a stored playlist keeps the invariant and leaves no copy of the id. */
  lemma RemoveKeepsValid(s: State, key: string, id: string)
    requires Valid(s) && key in s.playlists
    ensures Valid(Store(s, key, Remove(s.playlists[key], id)))
    ensures !Contains(Remove(s.playlists[key], id), id)
  {
    var p := s.playlists[key];
    var q := Remove(p, id);
    RemoveFromDistinct(p, id);
    forall x | x in q.videos
      ensures x in s.library.videos
    {
      assert x in multiset(q.videos);
      assert x in p.videos;
    }
    StoreKeepsRegistryValid(s, key, q);
  }

  /** Appending a catalog id that a stored playlist lacks keeps the invariant. */
  lemma AddKeepsValid(s: State, key: string, id: string)
    requires Valid(s) && key in s.playlists
    requires id in s.library.videos && !Contains(s.playlists[key], id)
    ensures Valid(Store(s, key, Add(s.playlists[key], id)))
  {
    var p := s.playlists[key];
    AddKeepsDistinct(p, id);
    StoreKeepsRegistryValid(s, key, Add(p, id));
  }

  /** `createPlaylist`: refused when a playlist with the same name up to case exists. */
  function CreatePlaylist(s: State, name: string): (r: Step)
    ensures r.outcome == Rejected(PlaylistExists) <==> Key(name) in s.playlists
    ensures r.outcome.Ok? <==> Key(name) !in s.playlists
    ensures r.outcome.Rejected? ==> r.next == s
    ensures r.outcome.Ok? ==>
      && Key(name) in r.next.playlists
      && r.next.playlists[Key(name)].name == name
      && r.next.playlists[Key(name)].videos == []
    ensures OthersUnchanged(s.playlists, r.next.playlists, Key(name))
    ensures r.next.library == s.library && r.next.playing == s.playing && r.next.paused == s.paused
    ensures Valid(s) ==> Valid(r.next)
  {
    var key := Key(name);
    if key !in s.playlists then Step(Store(s, key, NewPlaylist(name)), Ok)
    else Step(s, Rejected(PlaylistExists))
  }

  /**
   `addVideoToPlaylist`: checks that the playlist exists, the video exists,
   the video is not flagged and is not already in the playlist, in that
   order; only then appends it.
   */
  function AddVideoToPlaylist(s: State, name: string, id: string): (r: Step)
    ensures r.outcome == Rejected(PlaylistMissing) <==> Key(name) !in s.playlists
    ensures r.outcome == Rejected(VideoMissing) <==> Key(name) in s.playlists && id !in s.library.videos
    ensures Key(name) in s.playlists && id in s.library.videos && s.library.videos[id].flagged ==>
      r.outcome == Rejected(VideoIsFlagged(ReasonText(s.library.videos[id].flagReason)))
    ensures r.outcome == Rejected(AlreadyAdded) <==>
      Key(name) in s.playlists && id in s.library.videos && !s.library.videos[id].flagged && Contains(s.playlists[Key(name)], id)
    ensures r.outcome.Ok? <==>
      Key(name) in s.playlists && id in s.library.videos && !s.library.videos[id].flagged && !Contains(s.playlists[Key(name)], id)
    ensures r.outcome.Rejected? ==> r.next == s
    ensures r.outcome.Ok? ==>
      && Key(name) in r.next.playlists
      && r.next.playlists[Key(name)].name == s.playlists[Key(name)].name
      && r.next.playlists[Key(name)].videos == s.playlists[Key(name)].videos + [id]
    ensures OthersUnchanged(s.playlists, r.next.playlists, Key(name))
    ensures r.next.library == s.library && r.next.playing == s.playing && r.next.paused == s.paused
    ensures Valid(s) ==> Valid(r.next)
  {
    var key := Key(name);
    if key in s.playlists then
      match Catalog.GetVideo(s.library, id)
      case None => Step(s, Rejected(VideoMissing))
      case Some(v) =>
        if v.flagged then Step(s, Rejected(VideoIsFlagged(ReasonText(v.flagReason))))
        else if Contains(s.playlists[key], id) then Step(s, Rejected(AlreadyAdded))
        else
          var q := Add(s.playlists[key], id);
          assert Valid(s) ==> Valid(Store(s, key, q)) by {
            if Valid(s) {
              AddKeepsValid(s, key, id);
            }
          }
          Step(Store(s, key, q), Ok)
    else Step(s, Rejected(PlaylistMissing))
  }

  /**
   `removeFromPlaylist`: checks that the playlist exists, the video exists
   and the video is in the playlist, in that order; then removes it.
   */
  function RemoveFromPlaylist(s: State, name: string, id: string): (r: Step)
    ensures r.outcome == Rejected(PlaylistMissing) <==> Key(name) !in s.playlists
    ensures r.outcome == Rejected(VideoMissing) <==> Key(name) in s.playlists && id !in s.library.videos
    ensures r.outcome == Rejected(NotInPlaylist) <==>
      Key(name) in s.playlists && id in s.library.videos && !Contains(s.playlists[Key(name)], id)
    ensures r.outcome.Ok? <==> Key(name) in s.playlists && id in s.library.videos && Contains(s.playlists[Key(name)], id)
    ensures r.outcome.Rejected? ==> r.next == s
    ensures r.outcome.Ok? ==>
      && Key(name) in r.next.playlists
      && r.next.playlists[Key(name)].name == s.playlists[Key(name)].name
      && |r.next.playlists[Key(name)].videos| == |s.playlists[Key(name)].videos| - 1
      && multiset(r.next.playlists[Key(name)].videos) == multiset(s.playlists[Key(name)].videos) - multiset{id}
    ensures r.outcome.Ok? ==> exists i ::
      && FirstAt(s.playlists[Key(name)].videos, id, i)
      && r.next.playlists[Key(name)].videos == s.playlists[Key(name)].videos[..i] + s.playlists[Key(name)].videos[i + 1..]
    ensures Valid(s) && r.outcome.Ok? ==> !Contains(r.next.playlists[Key(name)], id)
    ensures OthersUnchanged(s.playlists, r.next.playlists, Key(name))
    ensures r.next.library == s.library && r.next.playing == s.playing && r.next.paused == s.paused
    ensures Valid(s) ==> Valid(r.next)
  {
    var key := Key(name);
    if key !in s.playlists then Step(s, Rejected(PlaylistMissing))
    else if Catalog.GetVideo(s.library, id).None? then Step(s, Rejected(VideoMissing))
    else if !Contains(s.playlists[key], id) then Step(s, Rejected(NotInPlaylist))
    else
      var q := Remove(s.playlists[key], id);
      assert Valid(s) ==> Valid(Store(s, key, q)) && !Contains(q, id) by {
        if Valid(s) {
          RemoveKeepsValid(s, key, id);
        }
      }
      Step(Store(s, key, q), Ok)
  }

  /** `clearPlaylist`: refused for a missing playlist; otherwise empties it and keeps its name. */
  function ClearPlaylist(s: State, name: string): (r: Step)
    ensures r.outcome == Rejected(PlaylistMissing) <==> Key(name) !in s.playlists
    ensures r.outcome.Ok? <==> Key(name) in s.playlists
    ensures r.outcome.Rejected? ==> r.next == s
    ensures r.outcome.Ok? ==>
      && Key(name) in r.next.playlists
      && r.next.playlists[Key(name)].name == s.playlists[Key(name)].name
      && r.next.playlists[Key(name)].videos == []
    ensures OthersUnchanged(s.playlists, r.next.playlists, Key(name))
    ensures r.next.library == s.library && r.next.playing == s.playing && r.next.paused == s.paused
    ensures Valid(s) ==> Valid(r.next)
  {
    var key := Key(name);
    if key !in s.playlists then Step(s, Rejected(PlaylistMissing))
    else Step(Store(s, key, Clear(s.playlists[key])), Ok)
  }

  /** `deletePlaylist`: refused for a missing playlist; otherwise removes it from the registry. */
  function DeletePlaylist(s: State, name: string): (r: Step)
    ensures r.outcome == Rejected(PlaylistMissing) <==> Key(name) !in s.playlists
    ensures r.outcome.Ok? <==> Key(name) in s.playlists
    ensures r.outcome.Rejected? ==> r.next == s
    ensures r.outcome.Ok? ==> r.next.playlists.Keys == s.playlists.Keys - {Key(name)}
    ensures OthersUnchanged(s.playlists, r.next.playlists, Key(name))
    ensures r.next.library == s.library && r.next.playing == s.playing && r.next.paused == s.paused
    ensures Valid(s) ==> Valid(r.next)
  {
    var key := Key(name);
    if key !in s.playlists then Step(s, Rejected(PlaylistMissing))
    else Step(s.(playlists := s.playlists - {key}), Ok)
  }

  /**
   `showAllPlaylists`: the stored names of all playlists; empty exactly when
   there are none. The listing order is the hash map's and is not modelled.
   */
  function ShowAllPlaylists(s: State): (names: set<string>)
    ensures names == {} <==> s.playlists == map[]
    ensures Valid(s) ==> forall n :: n in names <==> Key(n) in s.playlists && s.playlists[Key(n)].name == n
  {
    var names := set k | k in s.playlists :: s.playlists[k].name;
    assert s.playlists != map[] ==> names != {} by {
      if s.playlists != map[] {
        var k :| k in s.playlists;
        assert s.playlists[k].name in names;
      }
    }
    assert Valid(s) ==> forall n :: n in names <==> Key(n) in s.playlists && s.playlists[Key(n)].name == n by {
      if Valid(s) {
        forall n
          ensures n in names <==> Key(n) in s.playlists && s.playlists[Key(n)].name == n
        {
          if n in names {
            var k :| k in s.playlists && s.playlists[k].name == n;
            assert Key(n) == k;
          }
        }
      }
    }
    names
  }

  /** What `showPlaylist` reports. */
  datatype PlaylistReport = NoSuchPlaylist | NoVideosYet | Entries(lines: seq<string>)

  /**
   `showPlaylist`: refused for a missing playlist, "no videos here yet" for an
   empty one, and otherwise one description per entry, in playlist order.
   */
  function ShowPlaylist(s: State, name: string): (r: PlaylistReport)
    requires EntriesKnown(s)
    ensures r.NoSuchPlaylist? <==> Key(name) !in s.playlists
    ensures r.NoVideosYet? <==> Key(name) in s.playlists && s.playlists[Key(name)].videos == []
    ensures r.Entries? ==>
      && |r.lines| == |s.playlists[Key(name)].videos|
      && forall i :: 0 <= i < |r.lines| ==> r.lines[i] == ToString(s.library.videos[s.playlists[Key(name)].videos[i]])
  {
    var key := Key(name);
    if key !in s.playlists then NoSuchPlaylist
    else
      match GetVideos(s.playlists[key])
      case None => NoVideosYet
      case Some(ids) =>
        Entries(seq(|ids|, i requires 0 <= i < |ids| => ToString(s.library.videos[ids[i]])))
  }

  /** In a valid state no two playlists have names equal up to case. */
  lemma NamesUniqueUpToCase(s: State, a: string, b: string)
    requires Valid(s)
    requires a in s.playlists && b in s.playlists
    requires Lower(s.playlists[a].name) == Lower(s.playlists[b].name)
    ensures a == b
  {
  }

  /** Creating a playlist whose name differs from an existing one only in case is refused. */
  lemma CreateIsCaseInsensitive(s: State, first: string, second: string)
    requires Lower(first) == Lower(second)
    ensures CreatePlaylist(CreatePlaylist(s, first).next, second).outcome == Rejected(PlaylistExists)
    ensures CreatePlaylist(CreatePlaylist(s, first).next, second).next == CreatePlaylist(s, first).next
  {
  }

  /** Adding the same video twice: the second attempt is refused and changes nothing. */
  lemma AddTwiceRefused(s: State, name: string, id: string)
    requires AddVideoToPlaylist(s, name, id).outcome.Ok?
    ensures AddVideoToPlaylist(AddVideoToPlaylist(s, name, id).next, name, id).outcome == Rejected(AlreadyAdded)
    ensures AddVideoToPlaylist(AddVideoToPlaylist(s, name, id).next, name, id).next == AddVideoToPlaylist(s, name, id).next
  {
  }

  /** Adding a video to a playlist and removing it again gives back the original state. */
  lemma AddThenRemove(s: State, name: string, id: string)
    requires AddVideoToPlaylist(s, name, id).outcome.Ok?
    ensures RemoveFromPlaylist(AddVideoToPlaylist(s, name, id).next, name, id).outcome.Ok?
    ensures RemoveFromPlaylist(AddVideoToPlaylist(s, name, id).next, name, id).next == s
  {
    var key := Key(name);
    var p := s.playlists[key];
    var added := AddVideoToPlaylist(s, name, id).next;
    assert added == Store(s, key, Add(p, id));
    RemoveUndoesAdd(p, id);
    assert RemoveFromPlaylist(added, name, id).next == Store(added, key, p);
    StoreTwice(s, key, Add(p, id), p);
    StoreSame(s, key);
  }
}
