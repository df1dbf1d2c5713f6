/**
 * The replay fetcher, `Program.DownloadReplay`, with its I/O abstracted.
 *
 * The two network round trips and the decoder library are not modelled;
 * their results are inputs:
 *  - `primary`: the ranged request for the notes section followed by
 *    `DecodeNotes` on the buffered body, which either throws or returns a
 *    list of events;
 *  - `full`: the second, unranged request followed by `ReplayDecoder.Decode`,
 *    which either throws or returns an optional note list (`None` when the
 *    decoded replay, or its note list, is null).
 * `File.Exists` becomes membership of the file name in `existing`, the
 * names already present in the leaderboard directory.
 */
module Fetch {
  import opened Wrappers
  import opened Text
  import opened Notes

  /** Byte offsets of the replay's notes section and of the walls section after it. */
  datatype Offsets = Offsets(notes: int, walls: int)

  datatype Player = Player(id: string, name: Option<string>)

  /** The fields of a `ScoreResponse` that `DownloadReplay` reads; `None` is C#'s null. */
  datatype Score = Score(player: Player, replay: Option<string>, offsets: Option<Offsets>)

  /** What a call into code outside the model did: threw, or returned a value. */
  datatype Attempt<T> = Threw | Returned(value: T)

  /** The silent early returns of `DownloadReplay`. */
  datatype Skip = NoOffsets | EmptyReplay | AlreadyExists

  /**
   * How `DownloadReplay` ends:
   *  - `Skipped`: an early return before the `try`;
   *  - `Escaped`: an exception thrown before the `try` (sanitising a null
   *    player name), which leaves `DownloadReplay` and faults its task;
   *  - `Caught`: an exception inside the `try`, caught and logged, no file;
   *  - `Handed`: `SaveNotes` was called with `notes`.
   */
  datatype Outcome = Skipped(reason: Skip) | Escaped | Caught | Handed(notes: seq<NoteEvent>)

  /** `requested`: the ranged replay request was sent; `fellBack`: the full re-download was made. */
  datatype Download = Download(outcome: Outcome, requested: bool, fellBack: bool)

  /** `new RangeHeaderValue(from, to)` accepts only `0 <= from <= to`; otherwise it throws. */
  function RangeAccepted(o: Offsets): (ok: bool)
    ensures ok ==> 0 <= o.notes && 0 <= o.walls
    ensures o.notes > o.walls ==> !ok
  {
    0 <= o.notes <= o.walls
  }

  /**
   * The decision logic of `DownloadReplay`.  `score.Replay?.Length < 1` is
   * C#'s lifted comparison: it is false for a null replay, so only an EMPTY
   * replay string returns early; a null one proceeds into the `try`, where
   * the request cannot be sent and the exception is caught.
   */
  function Decide(score: Score, existing: set<string>,
                  primary: Attempt<seq<NoteEvent>>,
                  full: Attempt<Option<seq<NoteEvent>>>): (d: Download)
    // the three silent skips, and nothing is fetched for them
    ensures d.outcome == Skipped(NoOffsets) <==> score.offsets.None?
    ensures d.outcome == Skipped(EmptyReplay) <==> score.offsets.Some? && score.replay == Some("")
    ensures d.outcome == Skipped(AlreadyExists) <==>
              score.offsets.Some? && score.replay != Some("") && score.player.name.Some? &&
              ReplayFileName(score.player.id, score.player.name.value) in existing
    ensures d.outcome.Skipped? || d.outcome.Escaped? ==> !d.requested && !d.fellBack
    ensures d.outcome.Escaped? <==>
              score.offsets.Some? && score.replay != Some("") && score.player.name.None?
    // a request is sent exactly when the score passed every check and has a usable range
    ensures d.requested <==>
              score.offsets.Some? && score.replay.Some? && score.replay != Some("") &&
              score.player.name.Some? &&
              ReplayFileName(score.player.id, score.player.name.value) !in existing &&
              RangeAccepted(score.offsets.value)
    // the one fallback: taken exactly when the partial decode returned no events
    ensures d.fellBack <==> d.requested && primary == Returned([])
    ensures d.requested && primary.Returned? && |primary.value| > 0 ==>
              d.outcome == Handed(primary.value) && !d.fellBack
    ensures !d.fellBack && d.outcome.Handed? ==>
              d.requested && primary == Returned(d.outcome.notes) && |d.outcome.notes| > 0
    // the merge `replay?.notes ?? notes` after the fallback
    ensures d.fellBack && full.Threw? ==> d.outcome == Caught
    ensures d.fellBack && full.Returned? && full.value.Some? ==> d.outcome == Handed(full.value.value)
    ensures d.fellBack && full == Returned(None) ==> d.outcome == Handed([])
    // a decode that throws ends in a caught exception
    ensures d.requested && primary.Threw? ==> d.outcome == Caught
    ensures d.outcome.Handed? ==> d.requested
  {
    if score.offsets.None? then Download(Skipped(NoOffsets), false, false)
    else if score.replay == Some("") then Download(Skipped(EmptyReplay), false, false)
    else if score.player.name.None? then Download(Escaped, false, false)
    else if ReplayFileName(score.player.id, score.player.name.value) in existing then
      Download(Skipped(AlreadyExists), false, false)
    else if score.replay.None? || !RangeAccepted(score.offsets.value) then Download(Caught, false, false)
    else match primary
      case Threw => Download(Caught, true, false)
      case Returned(notes) =>
        if |notes| != 0 then Download(Handed(notes), true, false)
        else match full
          case Threw => Download(Caught, true, true)
          case Returned(replayNotes) => Download(Handed(replayNotes.GetOr(notes)), true, true)
  }

  /**
   * `DownloadReplay` writes a file exactly when it hands `SaveNotes` at
   * least one non-bomb event, that is, a non-empty table.
   */
  ghost function Writes(d: Download): (w: bool)
    ensures w <==> d.outcome.Handed? && Rows(d.outcome.notes) != []
  {
    if d.outcome.Handed? then
      RowsEmptyIff(d.outcome.notes);
      exists i :: 0 <= i < |d.outcome.notes| && d.outcome.notes[i].kind != Bomb
    else false
  }

  /**
   * `Program.DownloadReplay`: runs the decision above step by step (the
   * `notes` variable is reassigned by the fallback) and calls `SaveNotes`.
   * `file` is the table written, or `None` when no file is produced.
   */
  method DownloadReplay(score: Score, existing: set<string>,
                        primary: Attempt<seq<NoteEvent>>,
                        full: Attempt<Option<seq<NoteEvent>>>)
    returns (d: Download, file: Option<array2<real>>)
    ensures d == Decide(score, existing, primary, full)
    ensures file.Some? <==> Writes(d)
    ensures file.Some? ==> fresh(file.value) && HoldsRows(file.value, Rows(d.outcome.notes))
  {
    file := None;
    if score.offsets.None? {
      return Download(Skipped(NoOffsets), false, false), None;
    }
    if score.replay == Some("") {
      return Download(Skipped(EmptyReplay), false, false), None;
    }
    if score.player.name.None? {
      return Download(Escaped, false, false), None;
    }
    var filePath := ReplayFileName(score.player.id, score.player.name.value);
    if filePath in existing {
      return Download(Skipped(AlreadyExists), false, false), None;
    }
    // inside the try block
    if score.replay.None? || !RangeAccepted(score.offsets.value) {
      return Download(Caught, false, false), None;
    }
    if primary.Threw? {
      return Download(Caught, true, false), None;
    }
    var notes := primary.value;
    var fellBack := false;
    if |notes| == 0 {
      fellBack := true;
      if full.Threw? {
        return Download(Caught, true, true), None;
      }
      notes := full.value.GetOr(notes);
    }
    file := SaveNotes(notes);
    d := Download(Handed(notes), true, fellBack);
  }

  /**
   * Re-running a download that wrote its file, with that file now present,
   * is a silent skip: nothing is fetched and nothing is overwritten.
   */
  lemma RerunSkips(score: Score, existing: set<string>,
                   primary: Attempt<seq<NoteEvent>>, full: Attempt<Option<seq<NoteEvent>>>,
                   primary': Attempt<seq<NoteEvent>>, full': Attempt<Option<seq<NoteEvent>>>)
    requires Writes(Decide(score, existing, primary, full))
    ensures score.player.name.Some?
    ensures var again := Decide(score, existing + {ReplayFileName(score.player.id, score.player.name.value)},
                                primary', full');
            again.outcome == Skipped(AlreadyExists) && !again.requested
  {
  }

  /**
   * A null replay URL is not skipped but never yields a file either: the
   * request cannot be sent and the exception is caught.
   */
  lemma NullReplayWritesNothing(score: Score, existing: set<string>,
                                primary: Attempt<seq<NoteEvent>>, full: Attempt<Option<seq<NoteEvent>>>)
    requires score.replay.None? && score.offsets.Some? && score.player.name.Some?
    requires ReplayFileName(score.player.id, score.player.name.value) !in existing
    ensures Decide(score, existing, primary, full).outcome == Caught
    ensures !Writes(Decide(score, existing, primary, full))
  {
  }

  /**
   * A partial decode that found only bombs is not empty, so the fallback is
   * not taken, and `SaveNotes` then writes nothing.
   */
  lemma OnlyBombsNoFallback(score: Score, existing: set<string>, bombs: seq<NoteEvent>,
                            full: Attempt<Option<seq<NoteEvent>>>)
    requires |bombs| > 0 && forall i :: 0 <= i < |bombs| ==> bombs[i].kind == Bomb
    ensures var d := Decide(score, existing, Returned(bombs), full);
            !d.fellBack && !Writes(d)
  {
  }

  /**
   * When both decodes come back without events (or the full decode has no
   * replay), `SaveNotes` gets the empty list and no file is created.
   */
  lemma EmptyAfterFallbackWritesNothing(score: Score, existing: set<string>,
                                        full: Attempt<Option<seq<NoteEvent>>>)
    requires full == Returned(None) || full == Returned(Some([]))
    ensures var d := Decide(score, existing, Returned([]), full);
            (d.requested ==> d.fellBack && d.outcome == Handed([])) && !Writes(d)
  {
  }
}
