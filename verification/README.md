# Downloader queue and file naming, modelled in Dafny

This project models the download module of the application
(`src/custom_modules/Downloader/index.js`). It covers two parts.

The **queue controller** owns the pending queue, the download history, the
pause flag `can_run`, the running flag `is_running` and the ffmpeg
availability flag. It is `Downloader.Controller`, a class whose methods
update those fields in place. The exported operations `add`, `remove`,
`start`, `pause`, `resume`, `purgeQueue`, `purgeHistory`, `init`, the
accessors, `loadQueue`/`loadHistory` and the drain loop `runDownloader` with
its `processItem` are methods or functions of that class. Every emitted event
is appended to a ghost `log`, so contracts can state which events fire and in
what order.

The drain loop waits on an engine between items. It is therefore modelled in
steps:

- `Run` is what runs synchronously when the loop starts: the ffmpeg guard,
  then the first loop test, which pops and dispatches the head item. The
  built-in engine emits `start` here.
- `EngineStarted` is ffmpeg's `start` callback, emitted when its process
  begins.
- `Resolve` is the engine's final report on the item in flight. It records
  the outcome in the history, emits `finish` or `fail`, and runs the loop
  test again.

Any other operation, such as a `pause`, may run between these steps.
`Settle` runs an item's callbacks back to back. The engines themselves are
replaced by an `Outcome` the caller supplies: complete, or failed with or
without a prior `start`. `RunDownloader` runs the whole loop
for a given sequence of outcomes, one per queued item, with the settings
held fixed. It is proved to produce exactly the event trace `DrainTrace`
and the history `FinishedIds` that `QueueSpec` defines. Lemmas there show:

- the trace holds one `finish` or `fail` per item, in queue order;
- with history kept, the history gains exactly the ids of the `finish`
  events.

The **file naming** (`getLocalFilename`) is a set of pure functions in
`Filenames`, built on string and path primitives in `Paths`:

- the first-occurrence `replace` with a string pattern;
- the global `replace` with a literal regular expression;
- the sanitiser;
- `basename`, `dirname` and a two-part `join`.

`FilenameCases` works the naming rules out for the shapes the downloader
meets:

- the `%%username%%_%%videoid%%` template;
- a template without placeholders;
- a stream `.../<show>/playlist.m3u8` in mode 0;
- the cases where the playlist rename or ffmpeg's `.ts` to `.mp4` swap hits
  an earlier occurrence in the directory part instead of the file name.

The settings (`downloads.engine`, `.directory`, `.filemode`,
`.filetemplate`, `.history`) are a `Settings` value passed to each operation
that reads them. The codec probe's verdict is the parameter of `Init`. The
stored queue and history are `Option` parameters of `LoadQueue` and
`LoadHistory`, where `None` means unreadable or unparsable.

Two behaviours of the code are easy to misread:

- **The default name.** The default name replaces the first `m3u8` anywhere
  in the URL's basename (`DefaultName`), not only an `.m3u8` suffix.
- **The playlist rename.** The rename of `playlist.ts`/`playlist_eof.ts`
  replaces the first occurrence of that name in the whole path
  (`PlaylistRename`), not only the basename. `FilenameCases.RenameHitsDirectory`
  shows the consequence: when the download directory already contains the
  name, the directory part is renamed and the file keeps its generic name.

## Model

| member | source | states |
|---|---|---|
| Downloader.Controller.constructor | src/custom_modules/Downloader/index.js:13-18 | empty queue and history, may run, not running, ffmpeg not available, nothing in flight, empty log; the invariant holds |
| Downloader.Controller.Init | src/custom_modules/Downloader/index.js:99-111 | ffmpeg availability becomes the probe's verdict; nothing else changes |
| Downloader.Controller.IsRunning | src/custom_modules/Downloader/index.js:129-131 | true exactly when an item is in flight with an engine |
| Downloader.Controller.IsPaused | src/custom_modules/Downloader/index.js:133-135 | true exactly when the controller may not run |
| Downloader.Controller.HasBeenDownloaded | src/custom_modules/Downloader/index.js:140-142 | true exactly when some history entry equals the id |
| Downloader.Controller.IsFfmpegAvailable | src/custom_modules/Downloader/index.js:155-157 | returns the probed availability |
| Downloader.Controller.Add | src/custom_modules/Downloader/index.js:36-44 | the item goes to the tail, `add{id,url}` is logged; when idle and unpaused the drain loop starts on the extended queue, otherwise nothing else changes; history kept; invariant kept |
| Downloader.Controller.FindInQueue | src/custom_modules/Downloader/index.js:50-57 | the search loop returns the index of the first queued item with the id, and -1 exactly when there is none |
| Downloader.Controller.Remove | src/custom_modules/Downloader/index.js:49-67 | returns true exactly when some queued item has the id; then only the first such item is removed and `remove{id}` logged; otherwise queue and log unchanged; run state untouched |
| Downloader.Controller.Start | src/custom_modules/Downloader/index.js:72-76 | when idle and unpaused the drain loop starts; otherwise nothing changes |
| Downloader.Controller.Pause | src/custom_modules/Downloader/index.js:81-84 | becomes paused and logs `pause`; queue, history and the item in flight are untouched |
| Downloader.Controller.Resume | src/custom_modules/Downloader/index.js:90-97 | logs `resume` and lifts the pause; a running loop is left alone, an idle one is started; it ends unpaused unless the ffmpeg guard trips |
| Downloader.Controller.PurgeHistory | src/custom_modules/Downloader/index.js:144-147 | history becomes empty, so no id has been downloaded; nothing else changes |
| Downloader.Controller.PurgeQueue | src/custom_modules/Downloader/index.js:149-153 | queue becomes empty and `clear-queue` is logged; the item in flight carries on |
| Downloader.Controller.LoadQueue | src/custom_modules/Downloader/index.js:160-180 | the stored queue (empty when unreadable) replaces the queue; for a non-empty one an `add` per item is logged in order and the drain loop starts |
| Downloader.AddEvents | src/custom_modules/Downloader/index.js:173-175 | one `add{id,url}` event per stored item, in order |
| Downloader.Controller.LoadHistory | src/custom_modules/Downloader/index.js:186-202 | with history kept, the stored history (empty when unreadable) replaces it; otherwise the history is untouched |
| Downloader.Dispatch | src/custom_modules/Downloader/index.js:215-222 | the job handed to the engine is for the item and uses the configured engine |
| Downloader.Controller.LoopCheck | src/custom_modules/Downloader/index.js:284-292 | with items queued and not paused, the head is popped and dispatched and the loop is running; otherwise the loop stops with the queue untouched |
| Downloader.Controller.Run | src/custom_modules/Downloader/index.js:276-293 | when ffmpeg is selected but missing, logs `ffmpeg-danger` and `pause`, pauses and leaves the queue; otherwise the loop test runs |
| Downloader.Controller.EngineStarted | src/custom_modules/Downloader/index.js:261-263 | ffmpeg's `start` callback: `start{id,url}` for the item in flight is logged; nothing else changes; invariant kept |
| Downloader.Controller.Resolve | src/custom_modules/Downloader/index.js:225-267 | the engine's final report: the history gains the item's id exactly when it completed and history is kept; `finish` or `fail` is logged for the item; then the loop test runs again |
| Downloader.Controller.Settle | src/custom_modules/Downloader/index.js:225-267 | an item's callbacks back to back: the log gains exactly `ResolveEvents` for the job's engine and outcome, the history as `Resolve` says, then the loop test runs |
| Downloader.Controller.DrainTurn | src/custom_modules/Downloader/index.js:284-290 | one turn resolves the item in flight: either the next item is dispatched, or the queue is drained with the full trace and history |
| Downloader.Controller.RunDownloader | src/custom_modules/Downloader/index.js:276-293 | guard case: paused, queue and history kept; paused case: nothing changes; otherwise every queued item is dispatched once in order, the queue ends empty, the loop stops, the log gains `DrainTrace` and the history `FinishedIds` |
| QueueSpec.FirstMatch | src/custom_modules/Downloader/index.js:52-57 | the result is -1 or an index whose item has the id, with no match before it (and none at all when -1) |
| QueueSpec.FirstMatchFound | src/custom_modules/Downloader/index.js:59 | a match is found exactly when some item has the id |
| QueueSpec.RemoveAt | src/custom_modules/Downloader/index.js:60 | `splice(i, 1)`: one shorter, items before `i` kept, items after shifted down, the multiset loses exactly the removed item |
| QueueSpec.DispatchEvents | src/custom_modules/Downloader/index.js:221-222 | at most one event at dispatch, present exactly for the built-in engine, and it is `start{id,url}` for the item |
| QueueSpec.TerminalFor | src/custom_modules/Downloader/index.js:230-234 | `finish` exactly when the outcome is complete, otherwise `fail`, for the item's id |
| QueueSpec.ResolveEvents | src/custom_modules/Downloader/index.js:250-267 | one or two events after dispatch, the last the item's `finish`/`fail`; two exactly when ffmpeg got as far as `start`, and then the first is that `start` |
| QueueSpec.ItemEvents | src/custom_modules/Downloader/index.js:218-267 | one item's events are one or two, the last its `finish`/`fail`, and a two-event item starts with its `start{id,url}` |
| QueueSpec.DrainTrace | src/custom_modules/Downloader/index.js:284-290 | draining a queue gives each item one or two events, so the trace is between one and two events per item long; `DrainTerminals` and `FinishedIdsAreFinishEvents` say which |
| QueueSpec.FinishedIds | src/custom_modules/Downloader/index.js:226-227 | at most one recorded id per item, and none at all with history off; `FinishedIdsMember` says which |
| QueueSpec.ItemTerminals | src/custom_modules/Downloader/index.js:225-236 | one item's events hold exactly one terminal event, and a `finish` id only when it completed |
| QueueSpec.Verdicts | src/custom_modules/Downloader/index.js:284-290 | one terminal event per item, the `k`-th for item `k` and its outcome |
| QueueSpec.DrainTerminals | src/custom_modules/Downloader/index.js:284-290 | the `finish`/`fail` events of a drain are exactly one per item in queue order |
| QueueSpec.FinishedIdsAreFinishEvents | src/custom_modules/Downloader/index.js:226-230 | with history kept, the history gains exactly the ids of the `finish` events, in order |
| QueueSpec.FinishedIdsMember | src/custom_modules/Downloader/index.js:226-227 | with history kept, an id is recorded exactly when some item with it completed |
| Filenames.TitleOrDefault | src/custom_modules/Downloader/index.js:311 | a present non-empty title is used, otherwise `untitled`; never empty |
| Filenames.RenderTemplate | src/custom_modules/Downloader/index.js:306-312 | a template without `%` renders to itself; `FilenameCases.RenderUserAndVideo` works a template with placeholders out |
| Filenames.DefaultName | src/custom_modules/Downloader/index.js:300 | the default name has no `/`; `FilenameCases.DefaultNameOfStream` shows `<dir>/<stem>m3u8` giving `<stem>ts` |
| Filenames.DefaultPath | src/custom_modules/Downloader/index.js:300 | the default path's basename is `DefaultName` of the URL; under a directory not ending in `/` its dirname is that directory |
| Filenames.ChosenPath | src/custom_modules/Downloader/index.js:299-319 | mode 0 or an empty rendered name gives the default name, otherwise the basename of the sanitised rendered name plus `.ts`; under a directory not ending in `/`, the dirname is the directory whenever the rendered name used has no `/` |
| Filenames.TemplatedName | src/custom_modules/Downloader/index.js:314-318 | in templated mode, a rendered name without `/` gives the file name sanitised name plus `.ts` |
| Filenames.ParentName | src/custom_modules/Downloader/index.js:324 | the parent directory's name, even with `.ts` appended, has no `/`; `FilenameCases.ParentOfStream` shows `<pre>/<show>/<file>` giving `show` |
| Filenames.PlaylistRename | src/custom_modules/Downloader/index.js:321-326 | a path whose basename is not a playlist name is kept; a playlist basename is always replaced once, so the length changes by the new name's length minus the basename's; `PlaylistRenameBasename` and `FilenameCases.RenameHitsDirectory` say where |
| Filenames.LocalFilename | src/custom_modules/Downloader/index.js:299-329 | for a directory not ending in `/`, a rendered name without `/` and no playlist name, the file lies directly in the download directory; a playlist name is always renamed, changing the length as `PlaylistRename` says |
| Filenames.PlaylistRenameBasename | src/custom_modules/Downloader/index.js:321-326 | when the basename occurs nowhere earlier, a playlist name is replaced by the parent directory's name plus `.ts` and nothing else changes; other names are kept |
| Filenames.EngineOutput | src/custom_modules/Downloader/index.js:249 | the built-in engine writes the local path itself; for a path whose only `.` starts its `.ts` extension, ffmpeg writes the same path ending `.mp4`; `TargetPath` applies this to `LocalFilename` |
| Filenames.EngineOutputExtension | src/custom_modules/Downloader/index.js:249 | when the extension is the only `.ts`, ffmpeg writes the same path ending `.mp4`; the built-in engine writes the path itself |
| FilenameCases.RenderUserAndVideo | src/custom_modules/Downloader/index.js:306-312 | `%%username%%<sep>%%videoid%%` renders to the name, the separator and the id when none of them has a `%` |
| FilenameCases.TemplatedLocal | src/custom_modules/Downloader/index.js:314-326 | a rendered name without `/` that is not a playlist name is saved as its sanitised form plus `.ts` in the download directory |
| FilenameCases.UserVideoFile | src/custom_modules/Downloader/index.js:303-318 | template `%%username%%_%%videoid%%` saves a video as `<name>_<id>.ts` in the download directory (Bob's video 42: `Bob_42.ts`) |
| FilenameCases.PlainTemplateFile | src/custom_modules/Downloader/index.js:314-318 | a template without `%` or `/` that is not a playlist name once sanitised is used as the name, sanitised, plus `.ts` |
| FilenameCases.SanitizeExample | src/custom_modules/Downloader/index.js:317 | `a:b?c` sanitises to `a_b_c` |
| FilenameCases.ParentOfStream | src/custom_modules/Downloader/index.js:324 | the parent name of `<pre>/<show>/<file>` is `show` |
| FilenameCases.DefaultNameOfStream | src/custom_modules/Downloader/index.js:300 | the default name of `<dir>/<stem>m3u8` is `<stem>ts` |
| FilenameCases.StreamChosenPath | src/custom_modules/Downloader/index.js:300-304 | in mode 0 a stream `<pre>/<show>/<stem>m3u8` first gets `<directory>/<stem>ts`, and the stream's parent name is `show` |
| FilenameCases.PlaylistStreamFile | src/custom_modules/Downloader/index.js:300-326 | in mode 0 `.../<show>/playlist.m3u8` is saved as `<show>.ts` in the download directory (`showXYZ.ts`) unless the directory already holds the generic name |
| FilenameCases.ReplaceEarlierOccurrence | src/custom_modules/Downloader/index.js:325 | replacing the basename where it first occurs in the directory part keeps the basename |
| FilenameCases.RenameHitsDirectory | src/custom_modules/Downloader/index.js:321-326 | when the playlist name first occurs in the directory part, that occurrence is renamed and the file keeps its generic name |
| FilenameCases.FfmpegHitsEarlierTs | src/custom_modules/Downloader/index.js:249 | when the path holds `.ts` before its extension, ffmpeg's output swaps that earlier one for `.mp4` and still ends in `.ts` |
| Paths.IndexOf | src/custom_modules/Downloader/index.js:300 | -1 or an index where the pattern occurs |
| Paths.IndexOfLeftmost | src/custom_modules/Downloader/index.js:300 | no occurrence starts before the index found, and none at all when it is -1 |
| Paths.ReplaceFirstLeftmost | src/custom_modules/Downloader/index.js:300 | `ReplaceFirst`, a `replace` with a string pattern, replaces the leftmost occurrence and only it |
| Paths.ReplaceFirstNone | src/custom_modules/Downloader/index.js:300 | `ReplaceFirst` without an occurrence returns the string unchanged: a URL basename without `m3u8` here, or a path without `.ts` at index.js:249 |
| Paths.ReplaceAllNoMatch | src/custom_modules/Downloader/index.js:306-312 | the global replace leaves a string without occurrences unchanged |
| Paths.ReplaceAll | src/custom_modules/Downloader/index.js:306-312 | a replacement as long as the placeholder keeps the length; `ReplaceAllIsSplitJoin` equates it with split and join |
| Paths.ReplaceAllSelf | src/custom_modules/Downloader/index.js:306-312 | replacing a placeholder by itself changes nothing |
| Paths.ReplaceAllAbsentChar | src/custom_modules/Downloader/index.js:306-312 | a placeholder with a character the string lacks leaves it unchanged |
| Paths.ReplaceAllIsSplitJoin | src/custom_modules/Downloader/index.js:306-312 | the global replace equals splitting at the placeholder and joining with the replacement |
| Paths.SplitJoinRoundTrip | src/custom_modules/Downloader/index.js:306-312 | splitting and joining with the same text gives back the string |
| Paths.SplitPiecesFree | src/custom_modules/Downloader/index.js:306-312 | no piece of the split holds the separator |
| Paths.Sanitize | src/custom_modules/Downloader/index.js:317 | same length; each colon, star, question mark, double quote, angle bracket or bar becomes `_`, every other character is kept; no illegal character remains |
| Paths.SanitizeIdempotent | src/custom_modules/Downloader/index.js:317 | sanitising twice equals sanitising once |
| Paths.SanitizeLegal | src/custom_modules/Downloader/index.js:317 | a name without illegal characters is kept |
| Paths.LastSlash | src/custom_modules/Downloader/index.js:321 | -1 or the index of a `/` with no `/` after it |
| Paths.Basename | src/custom_modules/Downloader/index.js:321 | a `/`-free suffix of the path, preceded by a `/` unless it is the whole path |
| Paths.BasenameUnique | src/custom_modules/Downloader/index.js:321 | any such suffix is the basename |
| Paths.BasenameSplit | src/custom_modules/Downloader/index.js:321 | a path is its directory part, ending in `/` or empty, followed by its basename |
| Paths.BasenamePlain | src/custom_modules/Downloader/index.js:321 | a path without `/` is its own basename |
| Paths.Dirname | src/custom_modules/Downloader/index.js:324 | `.` without a `/`; `/` when the only `/` is the first character; otherwise the path is the dirname, a `/` and the basename |
| Paths.Join | src/custom_modules/Downloader/index.js:317 | the joined path ends with the name and has the name's basename; for a directory not ending in `/` and a name without `/`, its dirname is the directory |

## Left out

- Persistence is not modelled: `saveQueue`, `saveHistory`, `forceSave`, the JSON encoding and the file reads and writes. The stored queue and history reach `LoadQueue` and `LoadHistory` as `Option` values, where `None` stands for a missing or unparsable file. `purgeHistory`'s file deletion is not modelled.
- `getLocalFilename`'s `fs.ensureDirSync` (creating the target directory) is not modelled. `LocalFilename` is the path it returns.
- The Electron `app` object and the settings store are outside the model. Settings are a value passed to each operation.
- The engines (`m3u8stream`, `fluent-ffmpeg` and their output options) are not modelled. Their final report is an `Outcome` given by the caller.
- Progress events and their `Math.round` percentage are not modelled.
- The codec probe in `init` runs asynchronously. Its verdict is the `available` parameter of `Init`.
- The event loop's interleaving is reduced to the `Run`, `EngineStarted` and `Resolve` steps. Any operation may run between them. Concurrent callbacks inside an operation are not modelled.
- Downloader.Controller.LoadQueue: requires the drain loop not to be running. The source calls `runDownloader` without checking (index.js:177), but at start-up nothing is running yet.
- Downloader.Controller.RunDownloader: holds the settings fixed for the whole drain and needs one outcome per queued item. No other operation interleaves. Drains with interleaved operations are covered step by step by `Run`, `EngineStarted`, `Resolve` and `LoopCheck`.
- Downloader.Dispatch: states the item and the engine of the job, but not the settings it stores. The file the engine writes is `Job.Target()`, that is `TargetPath`.
- Engine settings other than `internal` and `ffmpeg` are not modelled. With such a setting, `processItem` never resolves and the loop hangs.
- `path.join` normalisation (`.`, `..`, repeated `/`) is not modelled, and neither is the way `basename`/`dirname` ignore trailing slashes. `Join`, `Basename` and `Dirname` are the plain slash-separated forms. That is the POSIX reading of Node's `path`: on Windows `path` is `path.win32`, where `\` also separates in `basename`/`dirname` and `join` inserts `\`, which the model does not capture.
- JavaScript's `$` substitution patterns in `replace` replacement strings are not modelled. The user name, ids, title and time are inserted literally.
- Ids and times are strings. The conversion of numbers to strings in `replace` is not modelled. `remove` matches ids with the loose `==` (index.js:53), while `hasBeenDownloaded` uses `indexOf`, a strict comparison (index.js:141). With one id type both are plain equality, so the model does not show that a number id and its string form match in `remove` but not in `hasBeenDownloaded`.
- A `getLocalFilename` that throws is not modelled. It runs inside the promise executor of `processItem` (index.js:218), and it throws when `fs.ensureDirSync` (index.js:328) fails or when the directory or template setting is unset. The promise then rejects and the `await` at index.js:287 throws out of `runDownloader`. Line 292 never runs, so `is_running` stays true, the popped item is lost, and no later `add`, `start` or `resume` restarts the loop. This looks like a defect in the source. `LocalFilename` is total here, so the model has no such path.
- `FfmpegMissing` is the guard at index.js:277. It has no contract of its own; the `Run` and `RunDownloader` rows state what the guard does.
- `downloads.filemode == 0` is compared loosely in the source. Here `fileMode` is an integer.
- Only the `!finalname` falsy check matters for a string result, so it is modelled as the empty string.
