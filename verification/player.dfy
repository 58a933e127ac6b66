/**
 The video player's state and its playback and moderation commands. Every
 command is a transition from a state to the next state plus an outcome;
 a rejected command returns the state it was given.
 */
module Player {
  import opened Wrappers
  import opened Text
  import opened Seqs
  import opened Videos
  import opened Playlists
  import Catalog

  /**
   The library, the id of the video in the playing slot (None when nothing
   plays), the paused bit, and the playlists keyed by lower-cased name.
   */
  datatype State = State(
    library: Catalog.Library,
    playing: Option<string>,
    paused: bool,
    playlists: map<string, Playlist>)

  /** Why a command was refused. */
  datatype Failure =
    | VideoMissing
    | VideoIsFlagged(reason: string)
    | NothingPlaying
    | AlreadyPaused
    | NotPaused
    | NoVideosAvailable
    | PlaylistExists
    | PlaylistMissing
    | AlreadyAdded
    | NotInPlaylist
    | AlreadyFlagged
    | NotFlagged

  datatype Outcome = Ok | Rejected(why: Failure)

  datatype Step = Step(next: State, outcome: Outcome)

  /** Paused only while something plays, and what plays is a catalog video that is not flagged. */
  predicate PlaybackValid(s: State) {
    && (s.paused ==> s.playing.Some?)
    && (s.playing.Some? ==> s.playing.value in s.library.videos && !s.library.videos[s.playing.value].flagged)
  }

  /**
   Every playlist sits under the lower-cased form of its own name, holds no id
   twice, and holds only ids of catalog videos.
   */
  predicate RegistryValid(s: State) {
    && (forall key :: key in s.playlists ==>
      && Lower(s.playlists[key].name) == key
      && NoDups(s.playlists[key].videos))
    && EntriesKnown(s)
  }

  /** Every id in every playlist names a catalog video. */
  predicate EntriesKnown(s: State) {
    forall key, id :: key in s.playlists && id in s.playlists[key].videos ==> id in s.library.videos
  }

  /** The invariant every command preserves. */
  predicate Valid(s: State) {
    Catalog.Valid(s.library) && PlaybackValid(s) && RegistryValid(s)
  }

  /** The player as constructed: nothing playing, not paused, no playlists. */
  function Init(lib: Catalog.Library): (s: State)
    ensures s.library == lib && s.playing == None && !s.paused && s.playlists == map[]
    ensures Catalog.Valid(lib) ==> Valid(s)
  {
    State(lib, None, false, map[])
  }

  /** `setCurrentlyPlaying`: `id` takes the playing slot, unpaused. */
  function SetPlaying(s: State, id: string): (r: State)
    ensures r.playing == Some(id) && !r.paused
    ensures r.library == s.library && r.playlists == s.playlists
    ensures Valid(s) && id in s.library.videos && !s.library.videos[id].flagged ==> Valid(r)
  {
    s.(playing := Some(id), paused := false)
  }

  /** `stopVideo`: empties the playing slot; refused when it is already empty. */
  function StopVideo(s: State): (r: Step)
    ensures r.outcome == Rejected(NothingPlaying) <==> s.playing.None?
    ensures r.outcome.Rejected? ==> r.next == s
    ensures r.next.playing == None
    ensures r.outcome.Ok? ==> !r.next.paused
    ensures r.next.library == s.library && r.next.playlists == s.playlists
    ensures Valid(s) ==> Valid(r.next)
  {
    if s.playing.Some? then Step(s.(playing := None, paused := false), Ok)
    else Step(s, Rejected(NothingPlaying))
  }

  /**
   `playVideo`: refuses a missing or flagged video; otherwise stops whatever
   plays and starts `id`, unpaused.
   */
  function PlayVideo(s: State, id: string): (r: Step)
    ensures r.outcome == Rejected(VideoMissing) <==> id !in s.library.videos
    ensures id in s.library.videos && s.library.videos[id].flagged ==>
      r.outcome == Rejected(VideoIsFlagged(ReasonText(s.library.videos[id].flagReason)))
    ensures r.outcome.Ok? <==> id in s.library.videos && !s.library.videos[id].flagged
    ensures r.outcome.Rejected? ==> r.next == s
    ensures r.outcome.Ok? ==> r.next.playing == Some(id) && !r.next.paused
    ensures r.next.library == s.library && r.next.playlists == s.playlists
    ensures Valid(s) ==> Valid(r.next)
  {
    match Catalog.GetVideo(s.library, id)
    case None => Step(s, Rejected(VideoMissing))
    case Some(v) =>
      if v.flagged then Step(s, Rejected(VideoIsFlagged(ReasonText(v.flagReason))))
      else if s.playing.None? then Step(SetPlaying(s, id), Ok)
      else Step(SetPlaying(StopVideo(s).next, id), Ok)
  }

  /** The unflagged videos in listing order: the pool `playRandomVideo` draws from. */
  function Unflagged(lib: Catalog.Library): (r: seq<Video>)
    ensures forall v :: v in r <==> v in Catalog.Listing(lib) && !v.flagged
  {
    Filter(Catalog.Listing(lib), (v: Video) => !v.flagged)
  }

  /**
   `playRandomVideo`: plays the unflagged video at position `pick` of the pool
   (the random draw is the parameter); with an empty pool it reports that no
   videos are available and changes nothing.
   */
  function PlayRandomVideo(s: State, pick: nat): (r: Step)
    requires |Unflagged(s.library)| == 0 || pick < |Unflagged(s.library)|
    ensures r.outcome == Rejected(NoVideosAvailable) <==> |Unflagged(s.library)| == 0
    ensures r.outcome.Rejected? ==> r.next == s
    ensures Valid(s) ==> r.outcome.Ok? || |Unflagged(s.library)| == 0
    ensures Valid(s) && r.outcome.Ok? ==>
      && r.next.playing == Some(Unflagged(s.library)[pick].id)
      && Unflagged(s.library)[pick].id in r.next.library.videos
      && !r.next.library.videos[Unflagged(s.library)[pick].id].flagged
      && !r.next.paused
    ensures r.next.library == s.library && r.next.playlists == s.playlists
    ensures Valid(s) ==> Valid(r.next)
  {
    var pool := Unflagged(s.library);
    if |pool| == 0 then Step(s, Rejected(NoVideosAvailable))
    else
      assert Catalog.Valid(s.library) ==> pool[pick].id in s.library.videos && s.library.videos[pool[pick].id] == pool[pick] by {
        if Catalog.Valid(s.library) {
          assert pool[pick] in pool;
          Catalog.ListingMembers(s.library, pool[pick]);
        }
      }
      PlayVideo(s, pool[pick].id)
  }

  /** With every video flagged (or none at all), random play reports no videos and changes nothing. */
  lemma RandomWithEveryVideoFlagged(s: State, pick: nat)
    requires Valid(s)
    requires forall id :: id in s.library.videos ==> s.library.videos[id].flagged
    ensures |Unflagged(s.library)| == 0
    ensures PlayRandomVideo(s, pick) == Step(s, Rejected(NoVideosAvailable))
  {
    if |Unflagged(s.library)| != 0 {
      var v := Unflagged(s.library)[0];
      assert v in Unflagged(s.library);
      Catalog.ListingMembers(s.library, v);
      assert false;
    }
  }

  /** `pauseVideo`: refused when nothing plays or it is already paused. */
  function PauseVideo(s: State): (r: Step)
    ensures r.outcome == Rejected(NothingPlaying) <==> s.playing.None?
    ensures r.outcome == Rejected(AlreadyPaused) <==> s.playing.Some? && s.paused
    ensures r.outcome.Rejected? ==> r.next == s
    ensures r.outcome.Ok? ==> r.next.paused && r.next.playing == s.playing
    ensures r.next.library == s.library && r.next.playlists == s.playlists
    ensures Valid(s) ==> Valid(r.next)
  {
    if s.playing.None? then Step(s, Rejected(NothingPlaying))
    else if s.paused then Step(s, Rejected(AlreadyPaused))
    else Step(s.(paused := true), Ok)
  }

  /** `continueVideo`: refused when nothing plays or it is not paused. */
  function ContinueVideo(s: State): (r: Step)
    ensures r.outcome == Rejected(NothingPlaying) <==> s.playing.None?
    ensures r.outcome == Rejected(NotPaused) <==> s.playing.Some? && !s.paused
    ensures r.outcome.Ok? <==> s.playing.Some? && s.paused
    ensures r.outcome.Rejected? ==> r.next == s
    ensures r.outcome.Ok? ==> !r.next.paused && r.next.playing == s.playing
    ensures r.next.library == s.library && r.next.playlists == s.playlists
    ensures Valid(s) ==> Valid(r.next)
  {
    if s.playing.None? then Step(s, Rejected(NothingPlaying))
    else if s.paused then Step(s.(paused := false), Ok)
    else Step(s, Rejected(NotPaused))
  }

  /** Pausing and then continuing gives back the state before the pause. */
  lemma PauseThenContinue(s: State)
    requires s.playing.Some? && !s.paused
    ensures PauseVideo(s).outcome.Ok?
    ensures ContinueVideo(PauseVideo(s).next).outcome.Ok?
    ensures ContinueVideo(PauseVideo(s).next).next == s
  {
  }

  /** The line `showPlaying` prints. */
  function ShowPlaying(s: State): (line: string)
    requires s.playing.Some? ==> s.playing.value in s.library.videos
    ensures s.playing.None? <==> line == "No video is currently playing"
    ensures s.playing.Some? ==> "Currently playing: " + ToString(s.library.videos[s.playing.value]) <= line
    ensures s.playing.Some? && !s.paused ==> line == "Currently playing: " + ToString(s.library.videos[s.playing.value])
    ensures s.playing.Some? && s.paused ==> line == "Currently playing: " + ToString(s.library.videos[s.playing.value]) + " - PAUSED"
    ensures Valid(s) && s.playing.Some? && !s.paused ==> line[|line| - 1] == ']'
  {
    if s.playing.None? then "No video is currently playing"
    else
      var v := s.library.videos[s.playing.value];
      ToStringFlagSuffixIff(v);
      if s.paused then "Currently playing: " + ToString(v) + " - PAUSED"
      else
        var line := "Currently playing: " + ToString(v);
        assert line[|line| - 1] == ToString(v)[|ToString(v)| - 1];
        line
  }

  /** The reason recorded by the one-argument `flagVideo`. */
  const DefaultFlagReason := "Not supplied"

  /**
   `flagVideo`: refuses a missing or already flagged video; otherwise stops it
   if it is the one playing, then flags it with `reason`.
   */
  function FlagVideo(s: State, id: string, reason: string): (r: Step)
    ensures r.outcome == Rejected(VideoMissing) <==> id !in s.library.videos
    ensures r.outcome == Rejected(AlreadyFlagged) <==> id in s.library.videos && s.library.videos[id].flagged
    ensures r.outcome.Ok? <==> id in s.library.videos && !s.library.videos[id].flagged
    ensures r.outcome.Rejected? ==> r.next == s
    ensures r.next.library.videos.Keys == s.library.videos.Keys && r.next.library.order == s.library.order
    ensures r.outcome.Ok? ==>
      && r.next.library.videos[id].flagged
      && r.next.library.videos[id].flagReason == Some(reason)
      && SameMetadata(r.next.library.videos[id], s.library.videos[id])
    ensures forall other :: other in s.library.videos && other != id ==> r.next.library.videos[other] == s.library.videos[other]
    ensures r.outcome.Ok? && s.playing == Some(id) ==> r.next.playing == None && !r.next.paused
    ensures s.playing != Some(id) ==> r.next.playing == s.playing && r.next.paused == s.paused
    ensures r.next.playlists == s.playlists
    ensures Valid(s) ==> Valid(r.next)
  {
    match Catalog.GetVideo(s.library, id)
    case None => Step(s, Rejected(VideoMissing))
    case Some(v) =>
      if v.flagged then Step(s, Rejected(AlreadyFlagged))
      else
        var stopped := if s.playing.Some? && s.playing.value == id then StopVideo(s).next else s;
        Step(stopped.(library := Catalog.Replace(stopped.library, id, Flag(v, reason))), Ok)
  }

  /** The one-argument `flagVideo`: flags with the reason "Not supplied". */
  function FlagVideoDefault(s: State, id: string): (r: Step)
    ensures r.outcome == Rejected(VideoMissing) <==> id !in s.library.videos
    ensures r.outcome == Rejected(AlreadyFlagged) <==> id in s.library.videos && s.library.videos[id].flagged
    ensures r.outcome.Ok? <==> id in s.library.videos && !s.library.videos[id].flagged
    ensures r.outcome.Rejected? ==> r.next == s
    ensures r.next.library.videos.Keys == s.library.videos.Keys && r.next.library.order == s.library.order
    ensures r.outcome.Ok? ==>
      && id in r.next.library.videos
      && r.next.library.videos[id].flagged
      && r.next.library.videos[id].flagReason == Some("Not supplied")
      && SameMetadata(r.next.library.videos[id], s.library.videos[id])
    ensures forall other :: other in s.library.videos && other != id ==> r.next.library.videos[other] == s.library.videos[other]
    ensures r.outcome.Ok? && s.playing == Some(id) ==> r.next.playing == None && !r.next.paused
    ensures s.playing != Some(id) ==> r.next.playing == s.playing && r.next.paused == s.paused
    ensures r.next.playlists == s.playlists
    ensures Valid(s) ==> Valid(r.next)
  {
    FlagVideo(s, id, DefaultFlagReason)
  }

  /** `allowVideo`: refuses a missing or unflagged video; otherwise clears its flag and reason. */
  function AllowVideo(s: State, id: string): (r: Step)
    ensures r.outcome == Rejected(VideoMissing) <==> id !in s.library.videos
    ensures r.outcome == Rejected(NotFlagged) <==> id in s.library.videos && !s.library.videos[id].flagged
    ensures r.outcome.Ok? <==> id in s.library.videos && s.library.videos[id].flagged
    ensures r.outcome.Rejected? ==> r.next == s
    ensures r.next.library.videos.Keys == s.library.videos.Keys && r.next.library.order == s.library.order
    ensures r.outcome.Ok? ==>
      && !r.next.library.videos[id].flagged
      && r.next.library.videos[id].flagReason == None
      && SameMetadata(r.next.library.videos[id], s.library.videos[id])
    ensures forall other :: other in s.library.videos && other != id ==> r.next.library.videos[other] == s.library.videos[other]
    ensures r.next.playing == s.playing && r.next.paused == s.paused && r.next.playlists == s.playlists
    ensures Valid(s) ==> Valid(r.next)
  {
    match Catalog.GetVideo(s.library, id)
    case None => Step(s, Rejected(VideoMissing))
    case Some(v) =>
      if !v.flagged then Step(s, Rejected(NotFlagged))
      else Step(s.(library := Catalog.Replace(s.library, id, Allow(v))), Ok)
  }

  /** Flagging a video that is not playing and then allowing it gives back the original state. */
  lemma FlagThenAllow(s: State, id: string, reason: string)
    requires Valid(s)
    requires id in s.library.videos && !s.library.videos[id].flagged
    requires s.playing != Some(id)
    ensures FlagVideo(s, id, reason).outcome.Ok?
    ensures AllowVideo(FlagVideo(s, id, reason).next, id).outcome.Ok?
    ensures AllowVideo(FlagVideo(s, id, reason).next, id).next == s
  {
    var v := s.library.videos[id];
    AllowUndoesFlag(v, reason);
    assert s.library.videos[id := v] == s.library.videos;
  }

  /** Flagging the video that is playing succeeds and empties the playing slot. */
  lemma FlagPlayingStops(s: State, id: string, reason: string)
    requires Valid(s) && s.playing == Some(id)
    ensures FlagVideo(s, id, reason).outcome.Ok?
    ensures FlagVideo(s, id, reason).next.playing == None
    ensures !FlagVideo(s, id, reason).next.paused
    ensures FlagVideo(s, id, reason).next.library.videos[id].flagged
  {
  }

  /** After playing or flagging in a valid state, the video in the playing slot is never flagged. */
  lemma PlayingNeverFlagged(s: State, id: string, reason: string)
    requires Valid(s)
    ensures var t := FlagVideo(s, id, reason).next;
      t.playing.Some? ==> !t.library.videos[t.playing.value].flagged
    ensures var t := PlayVideo(s, id).next;
      t.playing.Some? ==> !t.library.videos[t.playing.value].flagged
  {
  }
}
