# LocalArcService, modelled in Dafny

ARCitect's main process keeps a registry of the ARCs (annotated research
contexts) a user works with on disk. It tracks two sets of paths: single
ARC directories, and parent directories whose entries are ARCs. It persists
both sets to `localArcs.json`, lists the ARCs it can still find (pruning
paths that have disappeared), and scans the filesystem for `.git`
directories whose parent is an ARC. An ARC is a directory that holds
`isa.investigation.xlsx`.

This project models `packages/main/src/LocalArcService.ts`:

- `text.dfy` (`Text`): JavaScript `trim`, `split` and `join`, and the name
  `location.split('/').pop()`.
- `ordered_sets.dfy` (`OrderedSets`): a JavaScript `Set<string>` as a
  duplicate-free sequence in insertion order. `add`, `new Set(array)`,
  `delete` and `Array.from` all keep that order.
- `filesystem.dfy` (`FileSystem`): the filesystem as a map from path to
  node, `isArc`, and the filter "paths that still exist".
- `local_arc.dfy` (`LocalArcs`): the `LocalArc` class, its constructor and
  `toJSON`.
- `git_search.dfy` (`GitSearch`): the two candidate generators. This covers
  their command arguments, the drive-line filter and the events they yield,
  given what the spawned processes printed. It also covers the
  `scan_dot_git` platform table.
- `scan.dfy` (`ScanTally`): the loop of `scanFileSystemForArcs`. It is
  written as a fold over the event stream (`Tallied`) and as the loop itself
  (`RunScan`), proved equal to the fold.
- `registry.dfy` (`Registry`): the service object as a class whose fields
  are the two sets, the content of the data file and a count of file
  writes. The methods are `addLocalArc`, `addLocalArcs`, `removeLocalArc`,
  `addDirectory`, `removeDirectory`, `saveToFile`, `loadFromFile`,
  `getUserArcs` and `scanFileSystemForArcs`.
- `scenarios.dfy` (`Scenarios`): small worked cases of listing and
  scanning.

Filesystem calls that throw in the source (`statSync` on a missing path,
`readdirSync` on a file, `realpathSync` on a dangling path) are
preconditions here: `IsArc` requires an existing path, and `getUserArcs`
requires readable tracked directories and resolvable listings. The scan
requires that every candidate and its resolved parent exist. The resolution
of `<candidate>/..` is a parameter map `parentOf`. What the spawned
processes print is a parameter too (`ProcessRun`, `DriveRun`).

Where the code does something other than what it seems meant to do, the model follows the code:

- `isArc` throws on a path that does not exist. It does not return false.
- A candidate that cannot be resolved aborts the scan. It is not skipped.
- `new_arcs` receives every arc found, tracked or not. Only `arcNew` and
  the "Found new arc" message depend on tracking.
- `addLocalArcs` saves once per element, even for elements already tracked.
- `getUserArcs` does not deduplicate. An ARC that is tracked on its own and
  also lies in a tracked directory is listed twice.
- The scan calls `getUserArcs` only for its pruning. The list it returns is
  unused.
- On Windows the drive loop runs before the drive list is filled, so no drive is searched, and the empty list yields no error event. See Findings. The scan's Windows source is modelled as the intended search over the drive lines of the `wmic` output. The code as written is that search fed a `wmic` output holding no drive line (`GitSearch.WindowsSearchOfNoDrives`).

## Model

| member | source | states |
|---|---|---|
| Text.Trim | packages/main/src/LocalArcService.ts:68 | `trim()` leaves no white space at either end, is empty exactly when the input is all white space, and keeps a prefix of the left-trimmed input whose cut-off remainder is all white space |
| Text.TrimIdempotent | packages/main/src/LocalArcService.ts:76 | trimming an already trimmed drive or line changes nothing |
| Text.TrimOfTrimmed | packages/main/src/LocalArcService.ts:97 | a string without white space at its ends is its own trim |
| Text.Split | packages/main/src/LocalArcService.ts:177 | `split(sep)` yields at least one piece and no piece contains the separator |
| Text.JoinSplit | packages/main/src/LocalArcService.ts:177 | joining the pieces of `split(sep)` with `sep` gives back the string |
| Text.SplitJoin | packages/main/src/LocalArcService.ts:68 | splitting the join of separator-free pieces gives back the pieces |
| Text.SplitPiece | packages/main/src/LocalArcService.ts:68 | a separator-free prefix is glued to the first piece of the rest |
| Text.LastSegmentIsSuffix | packages/main/src/LocalArcService.ts:177 | `split('/').pop()` is a suffix without '/', preceded by '/' unless it is the whole path |
| Text.LastSegmentOfChild | packages/main/src/LocalArcService.ts:177 | the last segment of `${dir}/${name}` is `name` for a name without '/' |
| OrderedSets.Insert | packages/main/src/LocalArcService.ts:263 | `set.add` as a definition, without a contract of its own: the element goes at the end unless present; its properties are the next row's |
| OrderedSets.InsertProperties | packages/main/src/LocalArcService.ts:261-267 | `set.add` is idempotent, keeps the set duplicate-free, keeps earlier elements in place and adds exactly the element |
| OrderedSets.InsertAll | packages/main/src/LocalArcService.ts:270-277 | adding a list element by element keeps the old set as a prefix, adds exactly the list's members and keeps the set duplicate-free |
| OrderedSets.Fresh | packages/main/src/LocalArcService.ts:271 | the elements not yet in the set are the list's members outside it |
| OrderedSets.InsertAllAppendsFresh | packages/main/src/LocalArcService.ts:269-278 | adding a list appends exactly its untracked elements, in first-occurrence order |
| OrderedSets.FromArray | packages/main/src/LocalArcService.ts:342-343 | `new Set(array)` as a definition, without a contract of its own: the array's elements added one by one; the next row states what it gives |
| OrderedSets.FromArrayOfNoDup | packages/main/src/LocalArcService.ts:342-343 | `new Set(Array.from(set))` rebuilds the same set in the same order |
| OrderedSets.Without | packages/main/src/LocalArcService.ts:283 | `set.delete` as a definition, without a contract of its own: every occurrence of the element taken out; the next two rows state its properties |
| OrderedSets.WithoutProperties | packages/main/src/LocalArcService.ts:283 | `set.delete` removes the element and nothing else, is a no-op when it is absent, and keeps the set duplicate-free |
| OrderedSets.WithoutAt | packages/main/src/LocalArcService.ts:283 | deleting a present element removes exactly its one position and keeps the others' order |
| FileSystem.IsArc | packages/main/src/LocalArcService.ts:7-12 | `isArc` as a definition, without a contract of its own: a directory that holds `isa.investigation.xlsx`; it requires an existing path because `statSync` throws otherwise; the next row characterises it by the listing |
| FileSystem.IsArcByListing | packages/main/src/LocalArcService.ts:7-12 | on a consistent filesystem a path is an arc exactly when it is a directory whose listing names `isa.investigation.xlsx` |
| FileSystem.ExistingProperties | packages/main/src/LocalArcService.ts:305-325 | the survivors of the existence check are exactly the existing members, in order, duplicate-free, and everything when all exist |
| FileSystem.PruneStep | packages/main/src/LocalArcService.ts:305-325 | in a pass deleting missing paths from a live set, a present path stays in place and a missing one sits right after the survivors |
| FileSystem.ExistingAppend | packages/main/src/LocalArcService.ts:305-325 | the existence filter distributes over concatenation |
| LocalArcs.NewLocalArc | packages/main/src/LocalArcService.ts:175-180 | the constructor keeps the location, names the ARC after its last path segment, sets empty update stamps and no branch or remote |
| LocalArcs.ToJSON | packages/main/src/LocalArcService.ts:206-213 | `toJSON()` as a definition, without a contract of its own: the location, name and both stamps; the next row states what it drops |
| LocalArcs.ToJSONForgetsGitMetadata | packages/main/src/LocalArcService.ts:206-213 | two ARCs serialise alike exactly when location, name and both stamps agree; branch and remote are dropped |
| LocalArcs.ChildRecord | packages/main/src/LocalArcService.ts:309-311 | the record of an entry `${dir}/${file}` is named `file` and has empty stamps |
| GitSearch.FindArgs | packages/main/src/LocalArcService.ts:112-114 | `find` starts at `/`, looks for `-name .git`, has `-xdev` exactly when the scan is not full, and has 3 arguments for a full scan and 4 otherwise |
| GitSearch.FullFindDropsXdev | packages/main/src/LocalArcService.ts:113-114 | a full scan's arguments are the quick scan's without `-xdev` |
| GitSearch.WmicArgs | packages/main/src/LocalArcService.ts:49-51 | `wmic logicaldisk … get name` carries `Where "DriveType = 3"` right after `logicaldisk` exactly when the scan is not full, and has 3 arguments for a full scan and 4 otherwise |
| GitSearch.DirArgs | packages/main/src/LocalArcService.ts:75-76 | the per-drive command is `/c dir /s /b <trimmed drive>\.git` |
| GitSearch.DirArgsIgnoreSpace | packages/main/src/LocalArcService.ts:76 | white space around a drive line does not reach the command |
| GitSearch.IsDriveLine | packages/main/src/LocalArcService.ts:68 | the filter's test as a definition, without a contract of its own: not blank and not `Name` after trimming |
| GitSearch.FilterKeeps | packages/main/src/LocalArcService.ts:68 | `filter` keeps exactly the passing lines, unchanged, never more lines than it was given, and gives back a list whose every line passes |
| GitSearch.FilterOne | packages/main/src/LocalArcService.ts:68 | a single line is kept exactly when it passes |
| GitSearch.FilterAppend | packages/main/src/LocalArcService.ts:68 | filtering a concatenation is the concatenation of the filtered parts, so the kept lines keep their order and multiplicity |
| GitSearch.DriveLines | packages/main/src/LocalArcService.ts:66-68 | a line is a drive line exactly when it is a line of the `wmic` output that is not blank and not the `Name` header after trimming; no drive line holds a newline |
| GitSearch.PathEvents | packages/main/src/LocalArcService.ts:96-98 | each printed line becomes one `path` event carrying the trimmed line |
| GitSearch.RunEvents | packages/main/src/LocalArcService.ts:80-106 | one search process's events as a definition, without a contract of its own: an error when `spawn` throws, else a `path` event per line and an error if reading fails; the next row counts them |
| GitSearch.RunEventsCount | packages/main/src/LocalArcService.ts:119-143 | a search process yields one candidate per line printed and none when `spawn` throws |
| GitSearch.PathEventsCount | packages/main/src/LocalArcService.ts:134-136 | the number of candidates is the number of lines |
| GitSearch.UnixSearch | packages/main/src/LocalArcService.ts:111-144 | `searchGitUnix` as a definition, without a contract of its own: the command announcement, then the process's events; the next row counts them |
| GitSearch.UnixSearchCandidates | packages/main/src/LocalArcService.ts:111-144 | the Unix source yields one candidate per `find` line; when `spawn` throws it yields exactly the announcement and one error |
| GitSearch.WindowsSearch | packages/main/src/LocalArcService.ts:45-109 | `searchGitWindows` for a given drive list, as a definition without a contract of its own: the drive-query announcement, then the drive loop's events |
| GitSearch.DriveEvents | packages/main/src/LocalArcService.ts:72-107 | the drive loop as a definition, without a contract of its own: per drive its announcement, then its search's events |
| GitSearch.DriveEventsAnnounce | packages/main/src/LocalArcService.ts:72-77 | every drive of the loop is announced with its trimmed name and `dir` command |
| GitSearch.DriveRuns | packages/main/src/LocalArcService.ts:60-72 | the loop's iterations follow the drive lines one to one, in order, each with the outcome of its own `dir` search |
| GitSearch.WindowsSearchOf | packages/main/src/LocalArcService.ts:45-109 | `searchGitWindows` as evidently intended, as a definition without a contract of its own: the drive loop runs over the drive lines of the `wmic` output; the next row states its properties |
| GitSearch.WindowsSearchOfEveryDrive | packages/main/src/LocalArcService.ts:45-109 | with the drive list taken from the `wmic` output once it has ended, every drive line is announced and searched, and the source yields one candidate per line those searches printed |
| GitSearch.WindowsSearchCandidates | packages/main/src/LocalArcService.ts:72-107 | the Windows drive loop yields one candidate per line any drive search printed |
| GitSearch.DriveEventsCount | packages/main/src/LocalArcService.ts:72-107 | a drive whose `spawn` threw adds no candidate and the loop moves on |
| GitSearch.WindowsSearchAsWritten | packages/main/src/LocalArcService.ts:45-109 | `searchGitWindows` as the code runs, as a definition without a contract of its own: the drive loop over the still empty list |
| GitSearch.WindowsSearchOfNoDrives | packages/main/src/LocalArcService.ts:45-109 | the code as written is the intended search fed a `wmic` output none of whose lines is a drive line |
| GitSearch.WindowsSearchOfEmptyOutput | packages/main/src/LocalArcService.ts:45-109 | the empty `wmic` output is such an output |
| GitSearch.WindowsSearchAsWrittenFindsNothing | packages/main/src/LocalArcService.ts:48-72 | as written, the Windows source yields only the drive-query announcement and no candidate |
| GitSearch.PathsAreTrimmed | packages/main/src/LocalArcService.ts:97 | every candidate path has no white space at its ends |
| GitSearch.ScanDotGit | packages/main/src/LocalArcService.ts:157-165 | `win32` maps to the Windows source, `darwin` and `linux` to the Unix source, and every other platform to no source |
| GitSearch.SearchEvents | packages/main/src/LocalArcService.ts:370-372 | the call `scan_dot_git[platform](fullScan)`, as a definition without a contract of its own: the chosen strategy's events; the `ScanDotGit` row states the table |
| ScanTally.Initial | packages/main/src/LocalArcService.ts:360-367 | the `searchUpdate` literal, as a definition without a contract of its own: the platform, no messages, zero counters, no arcs |
| ScanTally.FoundArc | packages/main/src/LocalArcService.ts:378-382 | the test `statSync(candidate).isDirectory() && isArc(realpathSync(candidate + '/..'))`, as a definition without a contract of its own; `Step` and `TalliedSummary` state its effect |
| ScanTally.Step | packages/main/src/LocalArcService.ts:374-395 | one pass of the loop adds one to the candidates exactly for a `path` event, and sends exactly one update carrying the new tally unless the event is a candidate that reveals no arc |
| ScanTally.Tallied | packages/main/src/LocalArcService.ts:372-396 | the loop as a fold, a definition without a contract of its own; the rows below state what it computes |
| ScanTally.ScanLog | packages/main/src/LocalArcService.ts:360-398 | everything the scan sends, as a definition without a contract of its own: the fold's updates, then `searchFinished` with the final tally |
| ScanTally.RunScan | packages/main/src/LocalArcService.ts:360-398 | the loop sends exactly the fold's updates and then `searchFinished`; every sent tally has `arcNew <= arcFound <= arcCandidates`, `|new_arcs| == arcFound` and only info or error messages |
| ScanTally.TalliedSummary | packages/main/src/LocalArcService.ts:372-397 | candidates count the `path` events; every revealed arc is counted found and listed in `new_arcs`; untracked ones are counted new; the message list gains exactly `Messages` of the stream; one update per message or found arc |
| ScanTally.MessagesHold | packages/main/src/LocalArcService.ts:384-395 | the messages are the stream's info and error events and a `Found new arc` announcement of each revealed arc that is not tracked, and nothing else |
| ScanTally.MessagesSize | packages/main/src/LocalArcService.ts:384-395 | one message per info or error event and per revealed arc that is not tracked |
| ScanTally.TalliedOrdered | packages/main/src/LocalArcService.ts:376-389 | the final counters are ordered and `new_arcs` has `arcFound` entries |
| ScanTally.FoundArcsBound | packages/main/src/LocalArcService.ts:376-383 | at most one arc is found per candidate |
| ScanTally.TalliedMonotone | packages/main/src/LocalArcService.ts:391-398 | the sent snapshots only move forward and the final tally follows all of them |
| Registry.Records | packages/main/src/LocalArcService.ts:318-321 | one record per surviving tracked arc, record k being that of the k-th path |
| Registry.RecordsSnoc | packages/main/src/LocalArcService.ts:320 | pushing a record extends the list by that record |
| Registry.UserArcs | packages/main/src/LocalArcService.ts:302-328 | what `getUserArcs` returns, as a definition without a contract of its own: the directories' arc entries, then the surviving tracked arcs |
| Registry.UserArcsShape | packages/main/src/LocalArcService.ts:302-328 | every listed record is of an existing path that is an arc or a tracked arc, named after its last path segment, with both stamps empty |
| Registry.CollectChildArcs | packages/main/src/LocalArcService.ts:307-313 | the inner loop lists exactly the arc entries of a directory, in listing order, all with empty stamps |
| Registry.LocalArcService.constructor | packages/main/src/LocalArcService.ts:216-218 | the service starts with both sets empty and the data file untouched |
| Registry.LocalArcService.SaveToFile | packages/main/src/LocalArcService.ts:351-357 | saving writes both sets to the file and changes nothing else |
| Registry.LocalArcService.LoadFromFile | packages/main/src/LocalArcService.ts:338-349 | loading replaces both sets by `new Set` of the file's arrays when the file exists and changes nothing otherwise |
| Registry.LocalArcService.AddLocalArc | packages/main/src/LocalArcService.ts:261-267 | the arc is added at the end and saved when new; when already tracked nothing changes and no save happens |
| Registry.LocalArcService.AddLocalArcs | packages/main/src/LocalArcService.ts:269-279 | the untracked arcs are appended in order, the file is written once per input element, and the result echoes the input |
| Registry.LocalArcService.RemoveLocalArc | packages/main/src/LocalArcService.ts:281-286 | removing deletes exactly the target's position and saves; an untracked path changes nothing and saves nothing |
| Registry.LocalArcService.AddDirectory | packages/main/src/LocalArcService.ts:288-293 | the directory is added at the end and saved when new; otherwise nothing changes |
| Registry.LocalArcService.RemoveDirectory | packages/main/src/LocalArcService.ts:295-300 | removing deletes exactly the target's position and saves; an untracked path changes nothing |
| Registry.LocalArcService.GetUserArcs | packages/main/src/LocalArcService.ts:302-328 | the list is the arc entries of existing tracked directories, then the existing tracked arcs; both sets shrink to their existing members in order; one save per deletion |
| Registry.LocalArcService.ListDirectories | packages/main/src/LocalArcService.ts:305-317 | the directory loop lists the arc entries of existing directories and deletes the missing ones in place |
| Registry.LocalArcService.VisitDirectory | packages/main/src/LocalArcService.ts:306-316 | one turn of the directory loop keeps the pruning pass's invariant |
| Registry.LocalArcService.ListArcs | packages/main/src/LocalArcService.ts:318-325 | the arc loop lists the existing tracked arcs and deletes the missing ones in place |
| Registry.LocalArcService.VisitArc | packages/main/src/LocalArcService.ts:319-324 | one turn of the arc loop keeps the pruning pass's invariant |
| Registry.LocalArcService.ScanFileSystemForArcs | packages/main/src/LocalArcService.ts:359-399 | the scan first prunes both sets, saving once per deletion, then sends the fold's log over the platform's events, judging newness against the pruned arcs |
| Registry.SaveThenLoad | packages/main/src/LocalArcService.ts:338-357 | saving then loading gives back both sets element by element and in order |
| Scenarios.DirectoryWithOneArc | packages/main/src/LocalArcService.ts:305-313 | a tracked directory with one arc entry and one plain entry lists just the arc, named after its entry |
| Scenarios.ArcListedTwice | packages/main/src/LocalArcService.ts:302-327 | an arc tracked on its own and inside a tracked directory is listed twice |
| Scenarios.ScanOfOneArc | packages/main/src/LocalArcService.ts:374-392 | one arc-revealing candidate sends one update and the finish; it is counted new and announced only when untracked |
| Scenarios.ScanOfNonArc | packages/main/src/LocalArcService.ts:374-382 | a candidate revealing no arc is counted and sends nothing |
| Scenarios.ScanWithoutFind | packages/main/src/LocalArcService.ts:119-124 | when `spawn` throws for `find`, the scan sends the announcement, the error and the finish with no candidate |
| Scenarios.WindowsScanAsWritten | packages/main/src/LocalArcService.ts:48-72 | as written, a Windows scan sends one announcement and finishes with nothing found |

## Left out

- The file dialogs `selectAndAddArc` and `selectAndAddDirectory` (lines 220-256) are not modelled. They are Electron UI; after the dialog they only call `addLocalArc` and `addDirectory`.
- The IPC registration in `init` (lines 401-411) is not modelled; `loadFromFile` is.
- The stubs `getDirectories` and `getLocalArcStats` (lines 330-336) are not modelled. They hold no logic.
- Spawning processes, `readline`, `kill` and the `error` handler (lines 55-59, 82-106, 119-143) are not modelled. What a process printed, whether `spawn` threw, and whether reading failed, is a parameter.
- GitSearch.RunEvents: covers only a `spawn` call that throws. Node reports a command that cannot be started (ENOENT, EACCES) through the child's asynchronous `error` event instead. The `find` child (line 119) and the `dir` children (line 82) have no listener for it, so it becomes an uncaught exception, and the model does not carry that.
- Registry.LocalArcService.SaveToFile: `writeFileSync` (line 354) can throw, for example on a full disk or a read-only file. Then `addLocalArc`, `addLocalArcs`, `removeLocalArc`, `addDirectory`, `removeDirectory` and the pruning in `getUserArcs` have already changed the sets in memory but not the file. The model treats every write as succeeding.
- Registry.LocalArcService.LoadFromFile: `readFileSync` and `JSON.parse` (lines 340-341) can throw on an unreadable or malformed file, and a document without the two arrays gives empty sets. The model takes the file as holding the two arrays.
- `LocalArc.isGitRepo`, `readBranch` and `readRemote` (lines 182-204) are not modelled. They start git processes and fill fields asynchronously. `toJSON` drops those fields anyway.
- Console logging and the JSON text of the data file are not modelled. The file is modelled as the two arrays it holds.
- The data file's location under `app.getPath('userData')` is not modelled.
- `e.sender.send` is not modelled. The messages sent are returned as a log.
- FileSystem.IsArc: requires an existing path. On a missing path `statSync` throws, and that exception is not modelled.
- Registry.LocalArcService.GetUserArcs: requires every existing tracked directory to be a directory. On a file, `readdirSync` throws, and the model does not carry that exception.
- Registry.LocalArcService.ScanFileSystemForArcs: requires a supported platform, plus every candidate and its resolved parent to exist. Otherwise the source throws out of the scan; that is not modelled.
- ScanTally.RunScan: requires every candidate and its resolved parent to exist, for the same reason.
- A platform missing from `scan_dot_git` makes the scan throw. `ScanDotGit` returns `None` for it.
- Concurrent calls into the service, which its `async` functions allow between awaits, are not modelled.
- Symbolic links are not modelled. The filesystem map is taken as already resolved, except for the `parentOf` map of the scan.
- The renderer side, including `packages/renderer/src/views/UserArcs/ScanLocalDialogs/ScanLocalDialogs.d.ts`, is not part of this model.

## Findings

| source | as written | input that shows it | evidently intended | confidence | as-written member | corrected member |
|---|---|---|---|---|---|---|
| packages/main/src/LocalArcService.ts:61-72 | `drives` is filled only in the `end` callback of the `wmic` output, and the `end` event carries no data. The loop over `drives` runs right after the spawn, while `drives` is still `[]`. | Any Windows scan, whatever drives exist: it yields only the drive-query announcement. | The loop runs over the drive lines of the `wmic` output once it has ended. | not executed; high, from the event-loop order and the `end` event's signature | GitSearch.WindowsSearchAsWrittenFindsNothing | GitSearch.WindowsSearchOfEveryDrive |
