# Video player state machine

A Dafny model of an in-memory video player. The player has:

- a fixed library of videos, each with a title, an id, tags, and a moderation flag with a reason;
- one playing slot with a paused bit;
- playlists, found case-insensitively by name.

Every command that changes state is a pure function from a `State` (and the
command's arguments) to the next state and an `Outcome`: `Ok`, or `Rejected`
with the reason the command was refused. The searches return the next state
and the results they showed. The show commands return what they print.

Modules:

- `Wrappers`: `Option`, which stands in for Java's null.
- `Text`: the string operations the player uses.
  - ASCII lower-casing.
  - `String.compareTo`, which orders titles.
  - `String.contains`.
  - `List.toString`.
  - `String.replace` of a character by nothing.
- `Seqs`: the meaning of the `ArrayList` methods the player uses (`indexOf`, `contains`, `remove(Object)`), plus `Filter`.
- `Videos`: the `Video` record, its setters and `toString`.
- `Playlists`: the `Playlist` record and its operations.
- `Catalog`: the video library the player reads.
  - It is a map from id to video, plus the fixed order in which `getVideos()` lists them.
  - The library's own source is not part of this model.
- `TitleOrder`: sorting by title, as `Collections.sort` with `Comparator.comparing(Video::getTitle)` does it.
- `Player`: the state, its invariant `Valid`, and the playback and moderation commands.
- `PlaylistCommands`: the playlist commands.
- `Search`: `showAllVideos`, `searchVideos` and `searchVideosWithTag`.

The invariant `Player.Valid` collects the promises the player keeps:

- the library is consistent;
- the player is paused only while something plays;
- the playing video exists and is not flagged;
- every playlist is stored under the lower-cased form of its own name;
- no playlist holds an id twice;
- playlists hold only catalog ids.

Every command's contract states that it preserves `Valid` and that a rejected
command returns the state it was given.

Choices the model makes where the code is easy to misread:

- `flagReason` is tracked as present or absent (Java null). A flagged video
  with an empty reason string is possible and still counts as flagged.
- `getVideos` on an empty playlist yields None, standing for the null the
  code returns.
- `showAllPlaylists` lists the playlists in hash-map order. The model
  promises only which names appear.

## Model

| member | source | states |
|---|---|---|
| Videos.NewVideo | src/main/java/com/google/Video.java:15-21 | a new video keeps the given title, id and tags, is unflagged and has no reason |
| Videos.SetFlagged | src/main/java/com/google/Video.java:46-48 | sets the flag and leaves the reason and the metadata alone |
| Videos.SetFlagReason | src/main/java/com/google/Video.java:50-52 | sets the reason and leaves the flag and the metadata alone |
| Videos.SettersCommute | src/main/java/com/google/Video.java:46-52 | the two setters touch disjoint fields, so their order does not matter |
| Videos.Flag | src/main/java/com/google/VideoPlayer.java:432-433 | flagging yields a flagged video with the given reason and the same title, id and tags |
| Videos.Allow | src/main/java/com/google/VideoPlayer.java:451-452 | allowing yields an unflagged video with no reason and the same title, id and tags |
| Videos.AllowUndoesFlag | src/main/java/com/google/VideoPlayer.java:432-452 | allowing a video that was just flagged gives back the unflagged original |
| Videos.ToString | src/main/java/com/google/Video.java:55-64 | every description starts with `title (id) [`; its exact text is pinned by ToStringUnflagged, ToStringFlagSuffixIff and FlagAppendsSuffix |
| Videos.TagsTextSpaced | src/main/java/com/google/Video.java:58 | the tag list prints as the tags joined by single spaces inside brackets, commas inside tags removed too; no tags print as `[]` |
| Videos.ToStringUnflagged | src/main/java/com/google/Video.java:55-58 | an unflagged video prints as `title (id) [t1 t2 ...]` |
| Videos.ToStringFlagSuffixIff | src/main/java/com/google/Video.java:60-63 | the description ends in `)` if and only if the video is flagged, and in `]` if and only if it is not |
| Videos.FlagAppendsSuffix | src/main/java/com/google/Video.java:60-61 | flagging appends ` - FLAGGED (reason: <reason>)` to the description and changes nothing before it |
| Text.TagListText | src/main/java/com/google/Video.java:58 | removing commas from `[a, b, c]` leaves `[a b c]` with commas inside the tags removed as well |
| Text.StripCommaJoin | src/main/java/com/google/Video.java:58 | removing commas from a comma-space-joined list gives the comma-free items joined by single spaces |
| Text.StripAppend | src/main/java/com/google/Video.java:58 | removing a character distributes over concatenation |
| Text.Lower | src/main/java/com/google/VideoPlayer.java:156 | the lower-cased key has the same length and lower-cases each position |
| Text.LowerIdempotent | src/main/java/com/google/VideoPlayer.java:156 | lower-casing a key again does not change it |
| Text.CompareTo | src/main/java/com/google/VideoPlayer.java:35 | when one title is a prefix of the other, `compareTo` is the difference in length; at the first differing position it is the difference of the two characters (CompareToFirstDifference); its order properties are the lemmas below |
| Text.CompareToFirstDifference | src/main/java/com/google/VideoPlayer.java:35 | where two titles first differ, `compareTo` is the first title's character minus the second's |
| Text.CompareToAntisymmetric | src/main/java/com/google/VideoPlayer.java:35 | swapping the titles compared negates `compareTo` |
| Text.CompareToZeroIffEqual | src/main/java/com/google/VideoPlayer.java:35 | `compareTo` is zero exactly for equal titles |
| Text.TitleLeTransitive | src/main/java/com/google/VideoPlayer.java:35 | the title order is transitive |
| Text.TitleLeTotal | src/main/java/com/google/VideoPlayer.java:35 | any two titles are ordered one way or the other |
| Text.ContainsText | src/main/java/com/google/VideoPlayer.java:306 | a prefix is contained, and a contained term is never longer than the title; ContainsTextIffOccurs gives the full characterisation |
| Text.ContainsTextIffOccurs | src/main/java/com/google/VideoPlayer.java:306 | `contains` holds exactly when the term occurs at some position of the title |
| Seqs.IndexOf | src/main/java/com/google/Playlist.java:43-45 | the index is -1 exactly when the id is absent, and otherwise marks its first occurrence |
| Seqs.RemoveFirst | src/main/java/com/google/Playlist.java:25-27 | removes exactly the first occurrence; an absent id leaves the list unchanged; one copy leaves the multiset |
| Seqs.RemoveFirstFromDistinct | src/main/java/com/google/Playlist.java:25-27 | in a duplicate-free list the removed id is gone entirely and no duplicate appears |
| Seqs.Filter | src/main/java/com/google/VideoPlayer.java:304-309 | keeps exactly the elements that pass, each as many times as it occurs in the input; FilterAppend fixes their original order |
| Seqs.FilterAppend | src/main/java/com/google/VideoPlayer.java:304-309 | filtering a concatenation is the concatenation of the filtered parts, so the loop keeps the elements in their original order |
| Seqs.RemoveFirstAfterAppend | src/main/java/com/google/Playlist.java:21-27 | removing an id just appended to a list lacking it restores the list |
| Playlists.NewPlaylist | src/main/java/com/google/Playlist.java:16-19 | a new playlist keeps its name exactly and holds no videos |
| Playlists.Add | src/main/java/com/google/Playlist.java:21-23 | appends at the end: the length grows by one, the old ids stay as a prefix, the new id is last |
| Playlists.Remove | src/main/java/com/google/Playlist.java:25-27 | drops only the first occurrence of the id; an absent id changes nothing; the name stays |
| Playlists.Clear | src/main/java/com/google/Playlist.java:29-31 | empties the list and keeps the name |
| Playlists.GetVideos | src/main/java/com/google/Playlist.java:33-41 | null (None) if and only if the list is empty, otherwise the ids in insertion order |
| Playlists.Contains | src/main/java/com/google/Playlist.java:43-45 | `contains`, computed through `indexOf`, is exactly membership in the id list |
| Playlists.RemoveUndoesAdd | src/main/java/com/google/Playlist.java:21-27 | removing an id just added to a playlist lacking it restores the playlist |
| Playlists.RemoveFromDistinct | src/main/java/com/google/Playlist.java:25-27 | in a duplicate-free playlist removal leaves no copy of the id and no duplicates |
| Playlists.AddKeepsDistinct | src/main/java/com/google/Playlist.java:21-23 | appending an absent id keeps a playlist duplicate-free |
| Catalog.GetVideo | src/main/java/com/google/VideoPlayer.java:43 | a video is found exactly when the library stores one under the id |
| Catalog.ListingMembers | src/main/java/com/google/VideoPlayer.java:33 | in a valid library a video is listed exactly when it is the one stored under its id |
| Catalog.ListingDistinct | src/main/java/com/google/VideoPlayer.java:33 | a valid library lists each video at most once |
| Catalog.Replace | src/main/java/com/google/VideoPlayer.java:432-433 | a setter on the looked-up video changes only that video; the ids and the order stay and validity is kept |
| TitleOrder.Sort | src/main/java/com/google/VideoPlayer.java:35 | the sorted list is a permutation of the input in ascending title order |
| TitleOrder.Insert | src/main/java/com/google/VideoPlayer.java:35 | inserting adds one element and keeps a sorted list sorted |
| TitleOrder.FilterKeepsSorted | src/main/java/com/google/VideoPlayer.java:304-309 | keeping some videos of a sorted list leaves it sorted |
| Player.Init | src/main/java/com/google/VideoPlayer.java:19-24 | a new player plays nothing, is not paused, has no playlists, and is valid for a valid library |
| Player.SetPlaying | src/main/java/com/google/VideoPlayer.java:64-70 | the given video takes the slot, unpaused, and the invariant holds when it is a catalog video that is not flagged |
| Player.StopVideo | src/main/java/com/google/VideoPlayer.java:72-82 | refused exactly when nothing plays; otherwise the slot is empty and not paused |
| Player.PlayVideo | src/main/java/com/google/VideoPlayer.java:42-70 | refused for a missing video (reported as missing) or a flagged one (reported with its reason), leaving the state unchanged; otherwise exactly that video plays, unpaused, whatever played before |
| Player.Unflagged | src/main/java/com/google/VideoPlayer.java:86-94 | the random pool is exactly the listed videos that are not flagged |
| Player.PlayRandomVideo | src/main/java/com/google/VideoPlayer.java:84-105 | reports no videos available exactly when the pool is empty, leaving the state unchanged; otherwise starts the drawn unflagged video |
| Player.RandomWithEveryVideoFlagged | src/main/java/com/google/VideoPlayer.java:98-104 | with every video flagged, random play reports no videos available and changes nothing |
| Player.PauseVideo | src/main/java/com/google/VideoPlayer.java:107-121 | refused when nothing plays or already paused; otherwise paused with the same video |
| Player.ContinueVideo | src/main/java/com/google/VideoPlayer.java:123-137 | refused exactly when nothing plays or it is not paused; succeeds exactly for a paused player, which is unpaused with the same video |
| Player.PauseThenContinue | src/main/java/com/google/VideoPlayer.java:107-137 | pause then continue restores the exact previous state |
| Player.ShowPlaying | src/main/java/com/google/VideoPlayer.java:139-152 | the no-video line appears exactly when nothing plays; otherwise the line is `Currently playing: ` and the playing video's `toString`, followed by ` - PAUSED` when paused; a playing unpaused video's line ends in `]` |
| Player.FlagVideo | src/main/java/com/google/VideoPlayer.java:412-438 | refused for a missing or already flagged video with nothing changed; succeeds exactly for a present unflagged video, which it flags with the reason, stopping it if it was playing; no other video changes |
| Player.FlagVideoDefault | src/main/java/com/google/VideoPlayer.java:406-410 | the one-argument form succeeds exactly for a present unflagged video and flags it with reason "Not supplied", stopping it if it was playing; no other video, the playlists, or an unrelated playing video change |
| Player.AllowVideo | src/main/java/com/google/VideoPlayer.java:440-456 | refused for a missing or unflagged video with nothing changed; succeeds exactly for a present flagged video, clearing its flag and reason and changing nothing else |
| Player.FlagPlayingStops | src/main/java/com/google/VideoPlayer.java:425-433 | flagging the video that is playing succeeds, flags it and leaves nothing playing and nothing paused |
| Player.FlagThenAllow | src/main/java/com/google/VideoPlayer.java:412-456 | flagging a video that is not playing and allowing it again restores the whole state |
| Player.PlayingNeverFlagged | src/main/java/com/google/VideoPlayer.java:50-52 | after playing or flagging, the video in the playing slot is never flagged |
| PlaylistCommands.CreatePlaylist | src/main/java/com/google/VideoPlayer.java:154-167 | refused exactly when a playlist with the same lower-cased name exists, and succeeds exactly when none does; success stores an empty playlist with the name as typed; nothing else changes |
| PlaylistCommands.AddVideoToPlaylist | src/main/java/com/google/VideoPlayer.java:169-201 | checks playlist exists, video exists, video unflagged, not already present, in that order; only full success appends the id; other playlists untouched |
| PlaylistCommands.RemoveFromPlaylist | src/main/java/com/google/VideoPlayer.java:242-263 | checks playlist exists, video exists, membership, in that order; success splices out the first occurrence and keeps the other ids in order, after which the id is absent |
| PlaylistCommands.ClearPlaylist | src/main/java/com/google/VideoPlayer.java:265-278 | refused exactly when the playlist is missing and succeeds exactly when it exists; success empties it, keeping its name |
| PlaylistCommands.DeletePlaylist | src/main/java/com/google/VideoPlayer.java:280-293 | refused exactly when the playlist is missing and succeeds exactly when it exists; success removes only that key |
| PlaylistCommands.ShowAllPlaylists | src/main/java/com/google/VideoPlayer.java:203-216 | empty exactly when there are no playlists; a name is listed exactly when it is a stored playlist's own name |
| PlaylistCommands.ShowPlaylist | src/main/java/com/google/VideoPlayer.java:218-240 | missing playlist, empty playlist, or one description per entry in playlist order |
| PlaylistCommands.NamesUniqueUpToCase | src/main/java/com/google/VideoPlayer.java:154-167 | no two playlists have names equal up to case |
| PlaylistCommands.CreateIsCaseInsensitive | src/main/java/com/google/VideoPlayer.java:154-167 | creating a name that differs from an existing one only in case is refused and changes nothing |
| PlaylistCommands.AddTwiceRefused | src/main/java/com/google/VideoPlayer.java:187-190 | adding the same video a second time is refused as already added and changes nothing |
| PlaylistCommands.AddThenRemove | src/main/java/com/google/VideoPlayer.java:169-263 | adding a video and removing it again restores the whole state |
| Search.ShowAllVideos | src/main/java/com/google/VideoPlayer.java:30-40 | one description per library video, flagged ones included, in title order; as many lines as listed videos |
| Search.Results | src/main/java/com/google/VideoPlayer.java:298-309 | the results are exactly the listed unflagged videos that match, each as often as it is listed (so at most once in a valid library), in title order |
| Search.TitleResults | src/main/java/com/google/VideoPlayer.java:295-309 | exactly the unflagged videos whose lower-cased title contains the lower-cased term, each as often as it is listed, none twice in a valid library, in title order |
| Search.TagResults | src/main/java/com/google/VideoPlayer.java:348-364 | nothing unless the term starts with '#'; then exactly the unflagged videos carrying that exact tag, each as often as it is listed, none twice in a valid library, in title order |
| Search.Chosen | src/main/java/com/google/VideoPlayer.java:330-344 | a selection n picks `results[n-1]` only when 1 <= n <= the number of results; anything else picks nothing |
| Search.PlayChosen | src/main/java/com/google/VideoPlayer.java:386-398 | without a valid pick the state is unchanged; with one, the picked result plays unpaused |
| Search.SearchVideos | src/main/java/com/google/VideoPlayer.java:295-346 | results as in TitleResults, with no video twice in a valid state; a valid 1-based selection plays that result, any other input changes nothing |
| Search.SearchVideosWithTag | src/main/java/com/google/VideoPlayer.java:348-404 | results as in TagResults, with no video twice in a valid state; a term without '#' finds nothing and changes nothing; selection as in SearchVideos |
| Search.SearchNeverPlaysFlagged | src/main/java/com/google/VideoPlayer.java:304-364 | a selection made from title-search or tag-search results never starts a flagged video |

## Left out

- Printed messages: outcomes are kinds (`Ok` or a `Failure`), not text. The exceptions are `showPlaying`, `showAllVideos` and `showPlaylist`, whose lines are built from the modelled `toString`.
- `numberOfVideos` only prints the library size and is not modelled.
- Library loading: the library is a given value. Its listing order, the `HashMap` order in the original, is part of that value.
- `Scanner` input and `Integer.parseInt` in the searches: the user's answer is an `Option<int>`. An unparsable answer is None, and None picks nothing, as the catch-all does. Exhausted input is None as well, although the original's `nextLine()` runs before its `try` and would throw `NoSuchElementException` out of the search.
- `java.util.Random`: the drawn index is a parameter of `PlayRandomVideo`, required to lie inside the pool.
- Player.PlayRandomVideo: does not state that the draw is uniform, because the random source is a parameter.
- Unicode: `toLowerCase(Locale.ROOT)` is modelled for ASCII letters only. `compareTo` is compared on Dafny characters, which are Unicode scalar values rather than UTF-16 code units.
- `searchVideosWithTag("")`: the original throws at `charAt(0)`; the model treats the empty term as a term without '#', so it finds nothing and changes nothing.
- TitleOrder.Sort: the insertion is stable, as `Collections.sort` is, but stability is not stated in the contract.
- PlaylistCommands.ShowAllPlaylists: the hash-map listing order is not modelled; only the set of names is.
- The playing slot holds the video's id rather than the `Video` object. The object is the library's own, so the two agree.
