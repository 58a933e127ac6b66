/**
 One catalog entry: fixed metadata (title, id, tags) and the moderation
 state (flagged bit and flag reason), with the one-line description the
 player prints for it.
 */
module Videos {
  import opened Wrappers
  import opened Text

  /** `flagReason` is None where the original holds a null reference. */
  datatype Video = Video(title: string, id: string, tags: seq<string>, flagged: bool, flagReason: Option<string>)

  /** The moderation fields agree: a reason is recorded exactly when the video is flagged. */
  predicate WellFlagged(v: Video) {
    v.flagged <==> v.flagReason.Some?
  }

  /** Two records describe the same video: title, id and tags agree. */
  predicate SameMetadata(v: Video, w: Video) {
    v.title == w.title && v.id == w.id && v.tags == w.tags
  }

  /** A freshly constructed video: unflagged, without a reason. */
  function NewVideo(title: string, id: string, tags: seq<string>): (v: Video)
    ensures v.title == title && v.id == id && v.tags == tags
    ensures !v.flagged && v.flagReason == None
    ensures WellFlagged(v)
  {
    Video(title, id, tags, false, None)
  }

  /** `setFlagged`: changes the flag only. */
  function SetFlagged(v: Video, flagged: bool): (r: Video)
    ensures SameMetadata(r, v)
    ensures r.flagged == flagged && r.flagReason == v.flagReason
  {
    v.(flagged := flagged)
  }

  /** `setFlagReason`: changes the reason only. */
  function SetFlagReason(v: Video, reason: Option<string>): (r: Video)
    ensures SameMetadata(r, v)
    ensures r.flagReason == reason && r.flagged == v.flagged
  {
    v.(flagReason := reason)
  }

  /** The two setters touch disjoint fields, so their order does not matter. */
  lemma SettersCommute(v: Video, flagged: bool, reason: Option<string>)
    ensures SetFlagReason(SetFlagged(v, flagged), reason) == SetFlagged(SetFlagReason(v, reason), flagged)
  {
  }

  /** What the player does to a video it flags: set the bit, then the reason. */
  function Flag(v: Video, reason: string): (r: Video)
    ensures SameMetadata(r, v) && WellFlagged(r)
    ensures r.flagged && r.flagReason == Some(reason)
  {
    SetFlagReason(SetFlagged(v, true), Some(reason))
  }

  /** What the player does to a video it allows again: clear the bit and the reason. */
  function Allow(v: Video): (r: Video)
    ensures SameMetadata(r, v) && WellFlagged(r)
    ensures !r.flagged && r.flagReason == None
  {
    SetFlagReason(SetFlagged(v, false), None)
  }

  /** Allowing a video undoes flagging it. */
  lemma AllowUndoesFlag(v: Video, reason: string)
    requires WellFlagged(v) && !v.flagged
    ensures Allow(Flag(v, reason)) == v
  {
  }

  /** A reason as string concatenation renders it: a null reference prints as "null". */
  function ReasonText(reason: Option<string>): string {
    reason.UnwrapOr("null")
  }

  /** The bracketed tag list as `toString` prints it. */
  function TagsText(tags: seq<string>): string {
    Strip(ListText(tags), ',')
  }

  /** The suffix `toString` adds to a flagged video. */
  function FlaggedSuffix(reason: Option<string>): string {
    " - FLAGGED (reason: " + ReasonText(reason) + ")"
  }

  /** `toString`: `title (id) [tags]`, then the flag suffix when the video is flagged. */
  function ToString(v: Video): (r: string)
    ensures v.title + " (" + v.id + ") [" <= r
  {
    var output := v.title + " " + "(" + v.id + ") " + TagsText(v.tags);
    if v.flagged then output + FlaggedSuffix(v.flagReason) else output
  }

  /** The tag list prints as the tags, commas removed, separated by single spaces inside brackets. */
  lemma TagsTextSpaced(tags: seq<string>)
    ensures TagsText(tags) == "[" + JoinWith(StripEach(tags, ','), " ") + "]"
    ensures tags == [] ==> TagsText(tags) == "[]"
  {
    TagListText(tags);
  }

  /** An unflagged video's description is exactly `title (id) [t1 t2 ...]`. */
  lemma ToStringUnflagged(v: Video)
    requires !v.flagged
    ensures ToString(v) == v.title + " (" + v.id + ") [" + JoinWith(StripEach(v.tags, ','), " ") + "]"
  {
    TagsTextSpaced(v.tags);
  }

  /** The description ends in `)` when the video is flagged and in `]` when it is not. */
  lemma ToStringFlagSuffixIff(v: Video)
    ensures |ToString(v)| > 0
    ensures v.flagged <==> ToString(v)[|ToString(v)| - 1] == ')'
    ensures !v.flagged <==> ToString(v)[|ToString(v)| - 1] == ']'
  {
    TagsTextSpaced(v.tags);
  }

  /** Flagging appends the flag suffix to the description and changes nothing before it. */
  lemma FlagAppendsSuffix(v: Video, reason: string)
    requires !v.flagged
    ensures ToString(Flag(v, reason)) == ToString(v) + " - FLAGGED (reason: " + reason + ")"
  {
  }
}
