/**
 A playlist: the name exactly as its creator typed it and an ordered list of
 video ids. Duplicate checks belong to the player; at this level adding
 always appends.
 */
module Playlists {
  import opened Wrappers
  import opened Seqs

  datatype Playlist = Playlist(name: string, videos: seq<string>)

  /** `contains`: the list's `indexOf` finds the id. */
  predicate Contains(p: Playlist, id: string)
    ensures Contains(p, id) <==> id in p.videos
  {
    IndexOf(p.videos, id) != -1
  }

  /** `getVideos`: null (None) for an empty playlist, otherwise the ids in insertion order. */
  function GetVideos(p: Playlist): (r: Option<seq<string>>)
    ensures r.None? <==> |p.videos| == 0
    ensures r.Some? ==> r.value == p.videos
  {
    if |p.videos| == 0 then None else Some(p.videos)
  }

  /** A new playlist: the name as given, no videos. */
  function NewPlaylist(name: string): (p: Playlist)
    ensures p.name == name
    ensures GetVideos(p).None?
    ensures forall id :: !Contains(p, id)
  {
    Playlist(name, [])
  }

  /** `addVideoToPlaylist`: appends the id at the end, whether or not it is already there. */
  function Add(p: Playlist, id: string): (r: Playlist)
    ensures r.name == p.name
    ensures |r.videos| == |p.videos| + 1
    ensures r.videos[..|p.videos|] == p.videos && r.videos[|p.videos|] == id
    ensures Contains(r, id)
  {
    Playlist(p.name, p.videos + [id])
  }

  /** `removeVideoFromPlaylist`: drops the first occurrence of the id; an absent id changes nothing. */
  function Remove(p: Playlist, id: string): (r: Playlist)
    ensures r.name == p.name
    ensures !Contains(p, id) ==> r == p
    ensures Contains(p, id) ==> |r.videos| == |p.videos| - 1
    ensures Contains(p, id) ==> exists i :: FirstAt(p.videos, id, i) && r.videos == p.videos[..i] + p.videos[i + 1..]
    ensures multiset(r.videos) == multiset(p.videos) - multiset{id}
  {
    Playlist(p.name, RemoveFirst(p.videos, id))
  }

  /** `clearPlaylist`: no videos remain; the playlist and its name stay. */
  function Clear(p: Playlist): (r: Playlist)
    ensures r.name == p.name
    ensures GetVideos(r).None?
    ensures forall id :: !Contains(r, id)
  {
    Playlist(p.name, [])
  }

  /** Removing an id just added to a playlist that lacked it restores the playlist. */
  lemma RemoveUndoesAdd(p: Playlist, id: string)
    requires !Contains(p, id)
    ensures Remove(Add(p, id), id) == p
  {
    RemoveFirstAfterAppend(p.videos, id);
  }

  /** In a duplicate-free playlist, removing an id leaves no copy of it and no duplicates. */
  lemma RemoveFromDistinct(p: Playlist, id: string)
    requires NoDups(p.videos)
    ensures !Contains(Remove(p, id), id)
    ensures NoDups(Remove(p, id).videos)
  {
    RemoveFirstFromDistinct(p.videos, id);
  }

  /** Appending an absent id keeps a playlist duplicate-free. */
  lemma AddKeepsDistinct(p: Playlist, id: string)
    requires NoDups(p.videos) && !Contains(p, id)
    ensures NoDups(Add(p, id).videos)
  {
  }
}
