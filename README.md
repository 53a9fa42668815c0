# a4pu conversion pipeline in Dafny

a4pu turns a Pixiv "ugoira" into an H.264 MP4. An ugoira is a zip archive of frame images plus a list of per-frame delays in milliseconds. The program ships in two variants. `index.js` is a stand-alone server that can also run as a command-line batch. `api/index.js` is a serverless API. This project models the conversion pipeline the two variants share:

- **Encode step** (`frames2mp4`). The loop builds the encoder's `-i` arguments and its `-filter_complex` graph from the frame list. The graph is modelled as a list of `Directive`s: `settb/setpts`, `split`, `concat` and `scale`. A renderer turns the list into text as the template literals spell it. The method that follows the source's loop is proved to produce exactly that text. The module also proves:
  - where each delay lands;
  - that the last frame's delay is never read;
  - when the filter is empty;
  - that every link label of the graph is defined at most once and read exactly once.
- **Stand-alone server's on-disk cache** (`optCache`). The model covers the listing prune, the id index built with `slice(14, -4)`, and the round trip between that index and the save name `<convertTs>-<id>.mp4`.
- **Conversion scheduler** (`ugoira2mp4` with `removeConvertCache`). The in-flight array is a class field. Admission requires at most four entries and no duplicate; release uses `splice(indexOf(id), 1)`. Retries happen only on exceptions and stop once the counter passes 3.
- **API server's in-memory result cache** (`updateOutputQueue`). It evicts the entry that a descending sort on `ts` puts first, and is modelled as a `Map` that keeps insertion order.
- **API route's answer.** A cache hit is answered without converting. Otherwise the route answers with the converted video or the failure page.
- **Command-line tokeniser.** Arguments are joined, split at commas and whitespace, empties are dropped, and the run is accepted only if every token is all digits.

### Abstracted inputs

The environment supplies these as parameters:

- **Attempt outcomes.** One admitted attempt covers the metadata request, the archive download and the encoder run. Its result is an `Outcome` supplied by an oracle function indexed by the retry counter.
- **Sleeping** is a step that consumes `fuel`.
- **Directory listing** is a sequence of names.
- **Clock and runtime flags.** The clock value (`convertTs`, `ts`) and the runtime flags (native encoder, command-line mode) are parameters.

The model is sequential. No other request changes the in-flight queue while a call sleeps, so a call that is refused admission waits until its fuel runs out.

### Behaviour of the code worth noting

- **Fewer than two frames.** The filter string is left empty: a single frame gets no scale directive, and an empty frame list raises no error (`EncodeGraph.FilterEmptyIffShort`).
- **Three exceptions, then success.** After three exceptions a fourth attempt still runs (counter value 3), so the call succeeds (`Scheduler.ThrowsThenEncodes` with `k == 3`).
- **Download failure is not retried.** `getUgoiraData` catches its own errors and returns nothing, so only exceptions thrown inside the `try` retry (`Scheduler.NoRetryWithoutException`).
- **Result-cache eviction.** The result cache evicts the entry with the *greatest* timestamp, that is the newest one (`OutputCache.EvictsGreatestTimestamp`).
- **Disk-cache pruning.** Each listing deletes at most one cached file, and only when the listing has more than four names (`DiskCache.OptCache`).

## Model

| member | source | states |
|---|---|---|
| Text.NatTextRoundTrip | index.js:212-222 | the decimal text written for a link number or count reads back as that number, so distinct numbers give distinct labels |
| Text.NatTextInjective | index.js:212-222 | two numbers with the same printed label are equal |
| Text.TimestampHasThirteenDigits | index.js:224-225 | a millisecond timestamp from 2001 to 2286 prints as exactly 13 digits, the width the cache key slice assumes |
| Text.DelayText | index.js:215 | the printed delay in seconds is non-empty and starts with a minus sign exactly when the delay is negative |
| EncodeGraph.BuildInputsAndFilter | index.js:197-223 | the loop leaves in `argsOfInput` the `-i`/path pairs `InputArgs` describes and in `filterComplexStr` the rendering of the graph `FilterGraph` describes |
| EncodeGraph.TimedInputText | index.js:219-221 | the shift directive of a frame that is not one of the last two reads `[i+1]settb=1/1000,setpts=PTS+<delay/1000>/TB[f<i+1>]; ` |
| EncodeGraph.LastFramesText | index.js:211-218 | the text for the second-to-last frame is the split of the last input, the two shifted copies, the concat over `[0][f1]…[f<len>]` with `n=len+1`, and the even-size scale, spelled as the source spells them |
| EncodeGraph.InputArgsShape | index.js:202-208 | `argsOfInput` has 2·len entries, alternating `-i` and the frame's path in frame order; the path is `./tmp/<id>/<file>` with the native encoder and the bare file name otherwise |
| EncodeGraph.FilterEmptyIffShort | index.js:210-222 | the filter string is empty exactly when there are at most one frame: no concat, no scale and no error for zero frames |
| EncodeGraph.FilterEndsWithConcatAndScale | index.js:209-218 | for two frames or more the graph has len+3 directives and ends with `concat=n=<len+1>` over `[0][f1]…[f<len>]` followed by the scale directive, and its text ends with those two |
| EncodeGraph.DelayPlacement | index.js:211-222 | `[fj]` for j ≤ len−2 has one definition, shifting input j by frame j−1's delay; `[f<len-1>]` and `[f<len>]` each have one definition, shifting a split copy of the last input by frame len−2's delay |
| EncodeGraph.LastDelayIgnored | index.js:203-222 | two frame lists that differ only in the last frame's delay give the same arguments and the same graph |
| EncodeGraph.DefinedCount | index.js:211-222 | the graph defines each of `[f1]`…`[f<len>]` and the two split copies exactly once and no other label |
| EncodeGraph.ReadCount | index.js:211-222 | the graph reads each encoder input, each `[fk]` and each split copy exactly once and no other label |
| EncodeGraph.EveryLinkUsedOnce | index.js:211-222 | no label is defined twice, every defined label is read exactly once, and every encoder input is read exactly once |
| EncodeGraph.OddEntries | index.js:242-244 | the entries the `index % 2 === 1` walk picks are exactly the odd-position entries, in order |
| EncodeGraph.OddEntriesAreFiles | api/index.js:118-141 | the odd-position `-i` arguments are exactly the frame files written to the encoder's file system |
| EncodeGraph.Frames2Mp4 | index.js:194-246 | the encoder's argument list, the save path (`./<id>.mp4` in command-line mode, `./src/<ts>-<id>.mp4` otherwise); with the in-process encoder, the frame files written and the unlink walk over them and the output, which completes (so `frames2mp4` returns) exactly when no name repeats and otherwise stops at the first repeat, after the video was saved; with a native encoder nothing is unlinked |
| EncodeGraph.Frames2Mp4Api | api/index.js:108-144 | the API variant's argument list (`-vsync vfr -r 1000`, output `<id>.mp4`), the frame files written, and the unlink walk over them and the output, which completes (so the cache update and `return true` are reached) exactly when no name repeats |
| EncodeGraph.UnlinkWalk | index.js:242-245 | unlinks the names in order and stops at the first name already unlinked (the in-process file system throws there); what it unlinked is a repeat-free prefix of the names |
| EncodeGraph.UnlinkWalkCompletesIffDistinct | api/index.js:141-142 | the walk reaches its end exactly when the names are pairwise distinct, and then it has unlinked every name |
| EncodeGraph.RepeatedFrameFileStopsWalk | api/index.js:141-142 | two frames both named `a.jpg`: only the first unlink happens, the walk throws and the output `1.mp4` is never unlinked |
| DiskCache.CacheKeyOfSaveName | index.js:224-225 | `slice(14, -4)` of `<ts>-<id>.mp4` is `id` for a 13-digit ts: the cache key inverts the save name |
| DiskCache.IndexListing | index.js:123-126 | the `forEach` loop builds the index `CacheIndex` describes |
| DiskCache.CacheIndexCovers | index.js:123-126 | every listed name's key is indexed, and every indexed value is a listed name filed under its own key |
| DiskCache.CacheIndexLastWins | index.js:124-126 | a later name with the same key overwrites an earlier one; the last such name is the one kept |
| DiskCache.SavedVideoFound | index.js:123-126 | a video saved as `<ts>-<id>.mp4` is what the index gives for `id` when no later name has the same id |
| DiskCache.OptCache | index.js:116-128 | a file is deleted only when there are more than four names, at most one, and it is the second name; the index is built from all names but the first |
| DiskCache.DeletedNameStillIndexed | index.js:119-126 | as written, the deleted name is still in the returned index under its key |
| DiskCache.PruneOldest | index.js:119-127 | corrected pruning: deletes the first name and indexes the rest; the deleted name is never an index entry |
| Scheduler.IndexOf | index.js:163 | `indexOf` gives -1 exactly when the id is absent, otherwise the position of its first occurrence |
| Scheduler.SpliceOne | index.js:257 | `splice(start, 1)` removes one element at `start`, counting a negative start from the end, and nothing past the end |
| Scheduler.AdmissionKeepsWellFormed | index.js:163-167 | pushing an admitted id keeps the in-flight array within five entries and free of duplicates |
| Scheduler.ReleaseUndoesAdmission | index.js:255-258 | releasing the id just pushed gives back exactly the array it was pushed onto |
| Scheduler.ReleaseKeepsWellFormed | index.js:255-258 | a release keeps the array within five entries and free of duplicates |
| Scheduler.ConvertQueue.Release | index.js:255-258 | `removeConvertCache` splices out the first occurrence of the id |
| Scheduler.ConvertQueue.Ugoira2Mp4 | index.js:158-192 | the call's result is `Convert`'s; each admitted attempt is released once on both paths, so the array ends as it started and stays well-formed (the API variant at api/index.js:77-106 has the same structure) |
| Scheduler.AtMostFourAttempts | index.js:159-162 | at most four attempts run over all retries, one per counter value from the start up to 3 |
| Scheduler.NoRetryWithoutException | index.js:176-183 | an ineligible post or a failed download ends the call after one attempt, without a video |
| Scheduler.ThrowsThenEncodes | index.js:175-189 | if the attempts throw until attempt k ≤ 3 and that one encodes, the call returns its video after k+1 attempts |
| Scheduler.FourExceptionsGiveUp | index.js:159-162 | four exceptions in a row make the call give up after exactly four attempts |
| Scheduler.ConvertedIff | api/index.js:77-106 | a call converts if and only if it is admitted and some attempt k ≤ 3 encodes after all earlier attempts threw |
| OutputCache.NewestIndex | api/index.js:148-151 | the key the descending sort puts first: its ts is the greatest, and every earlier key in insertion order has a smaller ts |
| OutputCache.OutputQueue.UpdateOutputQueue | api/index.js:147-154 | the Map after the call is `Update` of the Map before, and it stays well-formed |
| OutputCache.EvictKeepsWellFormed | api/index.js:148-152 | eviction removes exactly one key when there are more than three, keeps the keys distinct and matching the entries, and changes nothing otherwise |
| OutputCache.PutKeepsWellFormed | api/index.js:153 | `set` keeps the keys distinct and matching the entries |
| OutputCache.UpdateStoresNewVideo | api/index.js:153 | after the update the new id maps to exactly the new `{ts, opt}` |
| OutputCache.UpdateKeepsAtMostFour | api/index.js:148-153 | a Map of at most four entries holds at most four after the update |
| OutputCache.EvictsGreatestTimestamp | api/index.js:149-151 | with four or more entries the deleted key has the greatest ts of all entries |
| OutputCache.UpdateLeavesOthers | api/index.js:147-154 | every key other than the evicted one and the new id keeps its entry, and no other key appears |
| OutputCache.SmallMapOnlyGrows | api/index.js:150-153 | with at most three entries nothing is evicted: only the new id is set, appended if new |
| ApiServer.Serve | api/index.js:39-53 | the route's answer keeps the cache well-formed |
| ApiServer.Server.HandleRequest | api/index.js:39-53 | the handler answers as `Serve` says, leaves the cache as `Serve` says and the in-flight array as it found it |
| ApiServer.CacheHitAnswersStored | api/index.js:42-46 | a cached id is answered with the stored video, no attempt runs and the cache is unchanged |
| ApiServer.ConvertedIsServedAndCached | api/index.js:47-51 | a converted video is what the client gets and what the cache now holds for the id |
| ApiServer.NotConvertedFails | api/index.js:47-53 | an uncached id that is not converted gets the failure page (or no answer while it waits), and the cache is unchanged |
| ApiServer.ServeKeepsAtMostFour | api/index.js:42-53 | the cache never holds more than four videos |
| ApiServer.RepeatedRequestHitsCache | api/index.js:42-51 | once an id has been answered with a video, the next request for it is a cache hit with the same video and no attempt |
| CliArgs.Split | index.js:65 | splitting always gives at least one piece |
| CliArgs.NonEmpty | index.js:66 | a piece is kept exactly when it is non-empty |
| CliArgs.NonEmptyAppend | index.js:66 | the filter keeps the pieces' order: filtering a concatenation is concatenating the filtered parts |
| CliArgs.SplitPiecesHaveNoSeparator | index.js:65 | no piece of the split holds a comma or whitespace character |
| CliArgs.TokensAreWords | index.js:63-66 | every token is a non-empty run of non-separator characters |
| CliArgs.TokensOfJoinedWords | index.js:63-66 | words joined by one separator character are tokenised back into exactly those words |
| CliArgs.LeadingSeparatorsDropped | index.js:65-66 | a run of commas and whitespace in front adds no token |
| CliArgs.TokensOfSpacedWords | index.js:63-66 | words separated by runs of commas and whitespace of any length and mix, with such runs also allowed before and after, are tokenised back into exactly those words, in order |
| CliArgs.CommaThenSpaceArguments | index.js:63-71 | the arguments `1,` and `2` (joined to `1, 2`, with an empty piece between the comma and the space) convert posts 1 and 2 |
| CliArgs.CliAction | index.js:52-77 | the program converts only when every token is all digits |
| CliArgs.DigitArgumentsAreConverted | index.js:63-71 | all-digit arguments are converted as given, in order |
| CliArgs.OneBadTokenRejectsAll | index.js:67-77 | a single token that is not all digits rejects the whole command line |

## Left out

- Network requests for the metadata and the archive, and zip extraction (`getUgoiraData`). Each admitted attempt is an `Outcome` chosen by the environment.
- Running the encoder, native or in-process, and `initFFmpeg`. The model stops at the argument list and at the virtual files written and deleted.
- EncodeGraph.Frames2Mp4: models only an encoder run that completes. If `ffmpeg.run` or the read of the output throws (index.js lines 227-241), none of the frame files or the output is unlinked; they stay in the in-process file system while the scheduler retries. When the unlink walk stops at a repeated name, the exception makes the attempt a `Throws` outcome for the scheduler; the video was already saved at line 241, so in server mode each retry saves another `<ts>-<id>.mp4`; in command-line mode the save name is `<id>.mp4` (index.js line 225) and each retry overwrites `./<id>.mp4`. The model does not tie the walk's outcome to the scheduler's oracle.
- EncodeGraph.Frames2Mp4Api: the same holds for api/index.js lines 132-140: on an encoder or read exception nothing is unlinked. A walk stopped by a repeated name skips `updateOutputQueue` and `return true` (lines 143-144) and is retried as an exception.
- Scheduler.ConvertQueue.Ugoira2Mp4: the release is modelled as always taking place. With the native encoder, `removeConvertCache` first removes `./tmp/<id>/` with `rmSync` without `force` (index.js line 256) and only then splices the id out (line 257). If that removal throws, for instance because the directory is missing after a `mkdirSync` failure that line 171 swallows, the exception escapes `ugoira2mp4` from either exit path, the id is never spliced out, and every later call for it waits forever. The model does not capture this unreleased-id path.
- Real file-system calls (`mkdirSync`, `readdirSync`, `rmSync`, `readFileSync`, `writeFileSync`):
  - The directory listing is an input.
  - A deletion is reported as the name to delete.
  - The order `readdirSync` returns names in is whatever the input sequence has.
- `sleep` and the interleaving of concurrent requests. The model is sequential.
- Scheduler.ConvertQueue.Ugoira2Mp4: a wait for admission consumes fuel. With no other request running, a refused call waits until the fuel runs out and reports `StillWaiting`. The model does not capture being admitted after another request releases its slot.
- Scheduler.Convert: the two variants' falsy results are merged into `NotConverted`. Those are `undefined` in `index.js` and `false` in `api/index.js`.
- ApiServer.Server.HandleRequest: the update of the result cache follows the scheduler call. In the source it happens inside the last attempt, before the id is released, and the difference cannot be observed sequentially.
- The stand-alone server's route (`index.js` lines 92-114) and the rest of the HTTP layer:
  - express routing and logging;
  - the HTML body of the failure page;
  - `Number(id).toString()`. Ids are kept as the digit strings the route pattern admits.
- Text.DelayText: prints `delay / 1000` as an exact decimal. JavaScript first rounds the quotient to a double and prints the shortest decimal that reads back as that double. The two agree while the quotient has at most 15 significant digits, that is for |delay| < 10^15 ms. Beyond that JavaScript prints the shortest round-trip form of the rounded double (for 9007199254740991 ms, `9007199254740.99` rather than `9007199254740.991`), and later the exponent notation; neither is modelled.
- Text.JsSlice: counts Dafny characters (Unicode scalar values), while JavaScript's `slice` counts UTF-16 code units. The two differ for names holding characters outside the Basic Multilingual Plane; the program's own `<ts>-<id>.mp4` names have none.
- Clock readings, console output, configuration and the native-or-in-process encoder choice at start-up are parameters or not modelled.

## Findings

| source | as written | input that shows it | evidently intended | confidence | as-written member | corrected member |
|---|---|---|---|---|---|---|
| index.js:119-126 | `files.splice(0, 1)` drops the first name from the list, then `rmSync` deletes `files[0]`, which is now the originally second name; that deleted name stays in the returned index | a listing `1700000000000-1.mp4` … `1700000000004-5.mp4`: the file for id `2` is deleted, yet the index still maps `2` to it, so a request for `2` reads a file that no longer exists | delete the name dropped from the list, so the index never names a deleted file | medium; not executed | DiskCache.DeletedNameStillIndexed | DiskCache.PruneOldest |
