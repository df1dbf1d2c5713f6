# BLReplaysPrepare, modelled in Dafny

BLReplaysPrepare is a batch tool. It pages through the ranked leaderboards of
the BeatLeader API and fetches the top scores of each leaderboard. For each
score it downloads the replay and decodes its note events. It then writes
one `.npy` table per score: one row per non-bomb note, holding the note id,
a normalised accuracy in [0, 1] and the spawn time.

All of its logic is in `BLReplaysPrepare/Program.cs`. The model covers the
parts that make decisions:

- `wrappers.dfy` (`Wrappers`): `Option`, standing for C#'s nullable references and `??`.
- `filtering.dfy` (`Filtering`): an order-preserving filter over sequences. `Positions` gives the input indices that survive the filter; the lemmas show the filter keeps exactly the matching elements, in order.
- `text.dfy` (`Text`): `sanitizeString` as a filter over `seq<char>` with the `[a-zA-Z0-9 ]` whitelist, and the per-score file name `{playerId}-{sanitized name}.npy`.
- `numeric.dfy` (`Numeric`): `clamp` over `real`, as `Math.Min(Math.Max(num, min), max)`.
- `notes.dfy` (`Notes`): note events, the accuracy formula, and `SaveNotes`. `SaveNotes` is a method that fills a freshly allocated `array2<real>` of shape N x 3 in a loop, or returns `None` when no file is written.
- `fetch.dfy` (`Fetch`): the decision logic of `DownloadReplay`. `Decide` is the specification. The method `DownloadReplay` carries out the same steps, reassigns `notes` on the fallback and calls `SaveNotes`.
- `walker.dfy` (`Walker`): the paging loop of `Main`. It runs over an abstract sequence of page outcomes, one per page request. `Run`/`Harvest` specify it and `HarvestLeaderboards` is the loop itself, with the inner `foreach` over a page's leaderboards.

Inputs that stand for I/O:
- The partial decode (ranged request plus `DecodeNotes`) is an `Attempt<seq<NoteEvent>>`: it either threw or returned events.
- The full decode (unranged request plus `ReplayDecoder.Decode`) is an `Attempt<Option<seq<NoteEvent>>>`. `None` means the decoded replay, or its note list, was null.
- `File.Exists` becomes membership of the file name in a set of names already present.
- Each page request of `Main` is a `PageOutcome`. If the page was listed, it carries the outcome of `DownloadLeaderboardScores` for each of its leaderboards.

Behaviour of the code worth noting:
- A null replay URL is not skipped. `score.Replay?.Length < 1` is false for null, so the code enters the `try`, fails to send the request, and catches the exception, so no file is written (`Fetch.NullReplayWritesNothing`).
- An offsets record whose range `RangeHeaderValue` rejects (a negative bound, or notes after walls) also ends in a caught exception, before any request is sent.
- A null player name makes `sanitizeString` throw before the `try`. The exception leaves `DownloadReplay` (`Escaped`).
- A transport failure while processing one leaderboard of a page is caught by `Main`, and the same page is requested again. `leaderboardCount` has already counted the leaderboards processed before the failure, so the counter is left unchanged only when the page request itself fails.

## Model

| member | source | states |
|---|---|---|
| Filtering.Filter | BLReplaysPrepare/Program.cs:38 | the filtered sequence is no longer than the input and every element it holds passes the predicate |
| Filtering.Positions | BLReplaysPrepare/Program.cs:42 | the surviving indices are in range, pass the predicate, are strictly ascending, and include every index whose element passes |
| Filtering.FilterIsOrderedSelection | BLReplaysPrepare/Program.cs:42 | the k-th filtered element is the input element at the k-th surviving index, so the filter keeps exactly the matching elements in input order |
| Filtering.FilterUnchangedIff | BLReplaysPrepare/Program.cs:38 | filtering leaves a sequence unchanged exactly when all of its elements pass |
| Filtering.FilterEmptyIff | BLReplaysPrepare/Program.cs:42-44 | the filter result is empty exactly when no element passes |
| Filtering.FilterIdempotent | BLReplaysPrepare/Program.cs:38 | filtering twice gives the same result as filtering once |
| Text.Sanitize | BLReplaysPrepare/Program.cs:37-39 | the sanitised string is no longer than the input and holds only ASCII letters, digits and spaces |
| Text.SanitizeKeepsSafeInOrder | BLReplaysPrepare/Program.cs:37-39 | every whitelisted character of the input is kept, in the original order, and nothing else |
| Text.SanitizeFixedIff | BLReplaysPrepare/Program.cs:38 | a string is unchanged by sanitising exactly when it already holds only whitelisted characters |
| Text.SanitizeIdempotent | BLReplaysPrepare/Program.cs:38 | sanitising an already sanitised string returns it unchanged |
| Text.SanitizeExample | BLReplaysPrepare/Program.cs:38 | the song name "Test/Song!" sanitises to "TestSong" |
| Text.ReplayFileName | BLReplaysPrepare/Program.cs:62 | the file name is the player id, a dash, the sanitised player name and ".npy", and each part can be read back |
| Text.ReplayFileNameCollidesIff | BLReplaysPrepare/Program.cs:62-66 | two names of one player give the same file name string exactly when they sanitise alike |
| Numeric.Max | BLReplaysPrepare/Program.cs:34 | `Math.Max` is at least both arguments and equals one of them |
| Numeric.Min | BLReplaysPrepare/Program.cs:34 | `Math.Min` is at most both arguments and equals one of them |
| Numeric.Clamp | BLReplaysPrepare/Program.cs:33-35 | with min <= max the result lies in [min, max]: it is num when num is in range, min when num is below and max when num is above; with min > max it is max |
| Numeric.ClampMonotone | BLReplaysPrepare/Program.cs:33-35 | clamping preserves the order of the clamped numbers |
| Notes.NotBombs | BLReplaysPrepare/Program.cs:42 | the kept events are no more than the input's and none of them is a bomb |
| Notes.Accuracy | BLReplaysPrepare/Program.cs:51 | accuracy is in [0, 1]; exactly 0 for every kind other than a good cut; for a good cut it is 1 at distance <= 0, 0 at distance >= 0.3, and 1 - d/0.3 in between |
| Notes.AccuracyMonotone | BLReplaysPrepare/Program.cs:51 | of two good cuts, the one nearer the centre never scores lower |
| Notes.RowOf | BLReplaysPrepare/Program.cs:50-52 | the row of one event holds its note id in column 0, its accuracy, which lies in [0, 1] and is 0 for any kind but a good cut, in column 1, and its spawn time in column 2 |
| Notes.Rows | BLReplaysPrepare/Program.cs:46-54 | the table has no more rows than there are input events, and every accuracy in it lies in [0, 1] |
| Notes.RowsFollowEvents | BLReplaysPrepare/Program.cs:42-54 | there is exactly one row per non-bomb event, in input order, and no bomb; each row is the event's note id, its accuracy and its spawn time |
| Notes.RowsEmptyIff | BLReplaysPrepare/Program.cs:42-44 | the table is empty exactly when the input is empty or holds only bombs |
| Notes.RowsIgnoreBombs | BLReplaysPrepare/Program.cs:42 | removing the bombs first leaves the table unchanged |
| Notes.SaveNotes | BLReplaysPrepare/Program.cs:41-57 | no file exactly when every event is a bomb (the empty input included); otherwise an N x 3 array whose rows are the table of the non-bomb events |
| Notes.TwoCutsAndABomb | BLReplaysPrepare/Program.cs:42-54 | good cuts at distances 0 and 0.3 plus a bomb give exactly the rows [id0, 1, t0] and [id1, 0, t1] |
| Fetch.Decide | BLReplaysPrepare/Program.cs:59-96 | skips with no fetch exactly when offsets are null, the replay string is empty, or the file exists; fails before the try on a null player name; requests only for a non-null URL with an accepted range; hands a non-empty partial decode to `SaveNotes` unchanged, without fallback; falls back exactly when the partial decode returned no events; after the fallback the notes are the full decode's when it has a replay and otherwise the empty primary list; any throw is caught |
| Fetch.RangeAccepted | BLReplaysPrepare/Program.cs:70 | `RangeHeaderValue(from, to)` accepts only non-negative bounds, and never a notes offset beyond the walls offset |
| Fetch.Writes | BLReplaysPrepare/Program.cs:79-91 | a download writes a file exactly when it hands `SaveNotes` a note list whose table is non-empty |
| Fetch.DownloadReplay | BLReplaysPrepare/Program.cs:59-96 | the imperative download follows `Decide`, and a file is written exactly when `SaveNotes` receives a non-bomb event, holding that table |
| Fetch.RerunSkips | BLReplaysPrepare/Program.cs:62-66 | once a download has written its file, running it again with that file present skips it and fetches nothing |
| Fetch.NullReplayWritesNothing | BLReplaysPrepare/Program.cs:60-95 | a null replay URL passes the early checks but ends in a caught exception with no file |
| Fetch.OnlyBombsNoFallback | BLReplaysPrepare/Program.cs:79-91 | a partial decode with only bombs does not trigger the fallback, and no file is written |
| Fetch.EmptyAfterFallbackWritesNothing | BLReplaysPrepare/Program.cs:79-91 | when both decodes give no events, `SaveNotes` receives the empty list and no file is created |
| Walker.CompletedFrom | BLReplaysPrepare/Program.cs:125-130 | the number of leaderboards processed is the position of the first failed download, or the whole page |
| Walker.Processed | BLReplaysPrepare/Program.cs:125-130 | on a listed page, the leaderboards counted are a completed prefix of the page, stopped by the first download that did not complete; no leaderboard is counted for a failed or malformed page request |
| Walker.IsFull | BLReplaysPrepare/Program.cs:125-134 | a page moves the walk to the next page exactly when it lists at least `PageSize` leaderboards and all of their downloads complete |
| Walker.IsLast | BLReplaysPrepare/Program.cs:125-133 | a page ends the walk by `break` exactly when it lists fewer than `PageSize` leaderboards and all of their downloads complete |
| Walker.IsRetry | BLReplaysPrepare/Program.cs:119-141 | a page is retried exactly when its request throws an `HttpRequestException` or, after the earlier downloads completed, one leaderboard's download throws one |
| Walker.IsCrash | BLReplaysPrepare/Program.cs:116-142 | the walk ends with an uncaught exception exactly when the page request throws anything else, or, after the earlier downloads completed, one leaderboard's download throws anything else |
| Walker.OutcomeClasses | BLReplaysPrepare/Program.cs:116-142 | every page request is exactly one of: full page, last page, caught transport failure, uncaught exception |
| Walker.StepPage | BLReplaysPrepare/Program.cs:117-141 | one pass adds the processed leaderboards to the count; a retry keeps the page and a full page moves to page + 1; a short page breaks; any other exception ends the run |
| Walker.Run | BLReplaysPrepare/Program.cs:116-142 | from any point with outcomes left, the loop makes at least one more request and never more requests than there are outcomes left; with none left it makes none (that each step is exactly one request, and for which page, is proved in `RunFacts`) |
| Walker.Harvest | BLReplaysPrepare/Program.cs:112-142 | the walk never makes more page requests than there are outcomes |
| Walker.RunFacts | BLReplaysPrepare/Program.cs:116-142 | from any point of the loop: requested pages, final page, count and stop reason in terms of the outcomes consumed |
| Walker.HarvestFacts | BLReplaysPrepare/Program.cs:112-142 | the page requested at step j is 1 plus the number of full pages before it; the final count is the number of leaderboards processed; the walk stops right after the first short page or uncaught exception |
| Walker.RequestsAdvance | BLReplaysPrepare/Program.cs:131-141 | after a retried request the same page is requested again; after a full page the next page, exactly one higher |
| Walker.StopsAtFirstTerminal | BLReplaysPrepare/Program.cs:131-133 | if outcome j is the first short page or uncaught failure, exactly j + 1 requests are made and the walk ends for that reason |
| Walker.NoTerminalNoStop | BLReplaysPrepare/Program.cs:137-142 | with no short page and no uncaught failure, the loop keeps requesting (it retries failures without bound) |
| Walker.HarvestLeaderboards | BLReplaysPrepare/Program.cs:110-143 | the imperative loop, with its inner loop over a page's leaderboards, ends in exactly the state and request trace that `Harvest` specifies |

## Left out

- HTTP requests, the range header on the wire, response streaming and buffering are not modelled. Their results are the abstract `Attempt` inputs and page outcomes.
- `ReplayDecoder.DecodeNotes` and `ReplayDecoder.Decode` are not modelled: it is a binary decoding library outside this repository. Their results are inputs.
- JSON deserialisation and the BeatLeader response types are not modelled. Any exception of the page request other than an `HttpRequestException` is the `Malformed` page outcome: for example a body that fails to deserialise, a null `Data`, or a request timeout.
- The `.npy` container written by `np.save` is not modelled. The model owns only the table contents; an I/O failure while saving, which would be caught, is not modelled.
- `DownloadLeaderboardScores` is modelled only through its outcome per leaderboard (`Walker.Leaderboard`). Not modelled: its score-list request, its folder name (which formats the float `Njs` in a culture-dependent way), `Directory.CreateDirectory`, and the `Task.WhenAll` fan-out in descending base-score order, which is concurrency and does not affect files. That `Fetch.Escaped` makes this outcome `OtherFailure` is stated in words only.
- `File.Exists` and `Path.Combine` are not modelled. Existence is a set of file names in the leaderboard directory.
- Console output, including the progress line with the page's reported total, is not modelled.
- Floating point is not modelled: accuracy, spawn time and cut distance are `real`, so IEEE double rounding and NaN are absent. The note id is stored as an exact `real`.
- The `int` counters `page` and `leaderboardCount` are unbounded; 32-bit wrap-around is not modelled.
- The listing request carries `count` twice (`count={pageSize}` and `count=12`). How the server resolves the duplicate is not modelled; the model compares the page length with 100, as the code does.
- The loop of `Main` has no bound. The model runs it over a finite sequence of outcomes and reports `OutOfOutcomes` when they run out.
