/** The platform candidate sources: the async generators `searchGitUnix` and
    `searchGitWindows`, the `scan_dot_git` table that picks one per operating
    system, and the pure pieces inside them (command arguments, the drive
    line filter, the events yielded). Spawning a process and reading its
    output are not modelled: what a spawned process produced is a parameter
    (`ProcessRun`), and each generator is the function from those outcomes to
    the sequence of events it yields. */
module GitSearch {
  import opened Optional
  import opened Text

  /** `SearchYield`: what a candidate source yields. Info and error payloads
      are `any` in the source; here they are the message text. */
  datatype SearchYield = Info(data: string) | Error(data: string) | Path(data: string)

  /** What one spawned search process produced: the `spawn` call itself
      threw (the synchronous failure the surrounding `try` catches), or the
      process ran and gave these stdout lines, possibly ended by an error
      while reading them. */
  datatype ProcessRun = SpawnFailed(reason: string) | Ran(lines: seq<string>, readError: Option<string>)

  /** One iteration of the Windows drive loop: the drive line and the outcome
      of the `dir` search spawned for it. */
  datatype DriveRun = DriveRun(drive: string, run: ProcessRun)

  const FindCommand: string := "find"
  const WmicCommand: string := "wmic"
  const DirCommand: string := "cmd.exe"
  /** The `wmic` clause restricting the query to local hard drives. */
  const LocalDiskFilter: string := "Where \"DriveType = 3\""

  // ---------------------------------------------------------------- Unix

  /** The `find` arguments: from the root, for entries named `.git`, staying
      on one filesystem (`-xdev`) unless a full scan is asked for. */
  function FindArgs(fullScan: bool): (args: seq<string>)
    ensures |args| == (if fullScan then 3 else 4)
    ensures args[0] == "/" && args[|args| - 2..] == ["-name", ".git"]
    ensures "-xdev" in args <==> !fullScan
  {
    ["/"] + (if fullScan then [] else ["-xdev"]) + ["-name", ".git"]
  }

  /** A full scan runs the same `find` with the `-xdev` restriction taken
      out and nothing else changed. */
  lemma FullFindDropsXdev()
    ensures FindArgs(true) == FindArgs(false)[..1] + FindArgs(false)[2..]
    ensures FindArgs(false)[1] == "-xdev"
  {
  }

  // ------------------------------------------------------------- Windows

  /** The `wmic` arguments that list drive names, restricted to local hard
      drives (`DriveType = 3`) unless a full scan is asked for. */
  function WmicArgs(fullScan: bool): (args: seq<string>)
    ensures |args| == (if fullScan then 3 else 4)
    ensures args[0] == "logicaldisk" && args[|args| - 2..] == ["get", "name"]
    ensures LocalDiskFilter in args <==> !fullScan
    ensures !fullScan ==> args[1] == LocalDiskFilter
  {
    ["logicaldisk"] + (if fullScan then [] else [LocalDiskFilter]) + ["get", "name"]
  }

  /** The `cmd.exe` arguments that list every `.git` on one drive. */
  function DirArgs(drive: string): (args: seq<string>)
    ensures |args| == 5 && args[..4] == ["/c", "dir", "/s", "/b"]
    ensures args[4] == Trim(drive) + "\\.git"
  {
    ["/c", "dir", "/s", "/b", Trim(drive) + "\\.git"]
  }

  /** White space around a drive line does not reach the command. */
  lemma DirArgsIgnoreSpace(drive: string)
    ensures DirArgs(drive) == DirArgs(Trim(drive))
  {
    TrimIdempotent(drive);
  }

  /** A line of `wmic` output that names a drive: not blank and not the
      `Name` column header. */
  predicate IsDriveLine(line: string) {
    Trim(line) != "" && Trim(line) != "Name"
  }

  /** `lines.filter(keep)`. */
  function Filter(keep: string -> bool, lines: seq<string>): seq<string> {
    if lines == [] then []
    else if keep(lines[0]) then [lines[0]] + Filter(keep, lines[1..])
    else Filter(keep, lines[1..])
  }

  /** The filter keeps exactly the lines that pass, unchanged, and a list
      whose every line passes comes back whole. */
  lemma {:induction false} FilterKeeps(keep: string -> bool, lines: seq<string>)
    ensures forall l :: l in Filter(keep, lines) <==> l in lines && keep(l)
    ensures |Filter(keep, lines)| <= |lines|
    ensures (forall l :: l in lines ==> keep(l)) ==> Filter(keep, lines) == lines
  {
    if lines != [] {
      FilterKeeps(keep, lines[1..]);
      assert forall l :: l in lines <==> l == lines[0] || l in lines[1..] by {
        assert lines == [lines[0]] + lines[1..];
      }
    }
  }

  /** A single line is kept exactly when it passes. */
  lemma FilterOne(keep: string -> bool, l: string)
    ensures Filter(keep, [l]) == if keep(l) then [l] else []
  {
    assert [l][1..] == [];
  }

  /** Filtering a concatenation filters each part and keeps them in order:
      together with the one-line case, the kept lines appear in the order
      of the input, each as often as it occurs there. */
  lemma {:induction false} FilterAppend(keep: string -> bool, a: seq<string>, b: seq<string>)
    ensures Filter(keep, a + b) == Filter(keep, a) + Filter(keep, b)
  {
    if a == [] {
      assert a + b == b;
    } else {
      assert (a + b)[0] == a[0] && (a + b)[1..] == a[1..] + b;
      FilterAppend(keep, a[1..], b);
      var fa, fb := Filter(keep, a[1..]), Filter(keep, b);
      assert [a[0]] + (fa + fb) == ([a[0]] + fa) + fb;
    }
  }

  /** `output.split('\n').filter(...)`: the drive names in `wmic` output.
      They keep their surrounding white space: the filter only drops the
      blank lines and the `Name` header. */
  function DriveLines(output: string): (drives: seq<string>)
    ensures forall l :: l in drives <==> l in Split(output, '\n') && IsDriveLine(l)
    ensures forall k :: 0 <= k < |drives| ==> '\n' !in drives[k] && IsDriveLine(drives[k])
  {
    var lines := Split(output, '\n');
    FilterKeeps(IsDriveLine, lines);
    FilterOfPieces(IsDriveLine, lines, '\n');
    Filter(IsDriveLine, lines)
  }

  /** Each kept line passes and, like every input line, lacks `c`. */
  lemma FilterOfPieces(keep: string -> bool, lines: seq<string>, c: char)
    requires forall k :: 0 <= k < |lines| ==> c !in lines[k]
    ensures forall k :: 0 <= k < |Filter(keep, lines)| ==>
      c !in Filter(keep, lines)[k] && keep(Filter(keep, lines)[k])
  {
    FilterKeeps(keep, lines);
    assert forall k :: 0 <= k < |Filter(keep, lines)| ==> Filter(keep, lines)[k] in lines;
  }

  // ------------------------------------------------------------- events

  /** A stdout line becomes a `path` event carrying the trimmed line. */
  function PathEvents(lines: seq<string>): (events: seq<SearchYield>)
    ensures |events| == |lines|
    ensures forall k :: 0 <= k < |lines| ==> events[k] == Path(Trim(lines[k]))
  {
    if lines == [] then [] else [Path(Trim(lines[0]))] + PathEvents(lines[1..])
  }

  /** The events one search process contributes: an error if `spawn`
      threw; otherwise its lines, then an error if reading them failed. */
  function RunEvents(run: ProcessRun): seq<SearchYield> {
    match run
    case SpawnFailed(reason) => [Error("Failed to start find command: " + reason)]
    case Ran(lines, readError) =>
      PathEvents(lines) +
      (if readError.Some? then [Error("Error reading output: " + readError.value)] else [])
  }

  /** `searchGitUnix(fullScan)`: announce the command, then what `find`
      produced. */
  function UnixSearch(fullScan: bool, run: ProcessRun): seq<SearchYield> {
    [Info("Searching for .git directories with command: " + FindCommand + " " +
          Join(FindArgs(fullScan), ' '))]
    + RunEvents(run)
  }

  /** `searchGitWindows(fullScan)` once the drive list is known: announce the
      drive query, then for each drive in turn announce its search and give
      what the search produced; a drive whose `spawn` throws moves on to the
      next drive. */
  function WindowsSearch(fullScan: bool, drives: seq<DriveRun>): seq<SearchYield> {
    [Info("Searching for drives with command: " + WmicCommand + " " + Join(WmicArgs(fullScan), ' '))]
    + DriveEvents(drives)
  }

  /** `searchGitWindows(fullScan)` as the code runs: `drives` is only
      assigned in the `end` callback of the `wmic` output, which fires after
      the drive loop has already run over the initial empty list (and the
      `end` event carries no data, so the assignment never happens). */
  function WindowsSearchAsWritten(fullScan: bool): seq<SearchYield> {
    WindowsSearch(fullScan, [])
  }

  /** As written, the Windows source announces the drive query and yields
      nothing more: no drive is searched and no candidate is produced,
      whatever is on disk. */
  lemma WindowsSearchAsWrittenFindsNothing(fullScan: bool)
    ensures |WindowsSearchAsWritten(fullScan)| == 1
    ensures WindowsSearchAsWritten(fullScan)[0].Info?
    ensures CountPaths(WindowsSearchAsWritten(fullScan)) == 0
  {
    WindowsSearchCandidates(fullScan, []);
  }

  /** The source as written is the intended one fed a `wmic` output that
      holds no drive line: only the drive query is announced. */
  lemma WindowsSearchOfNoDrives(fullScan: bool, wmicOutput: string, runOf: string -> ProcessRun)
    requires forall l :: l in Split(wmicOutput, '\n') ==> !IsDriveLine(l)
    ensures WindowsSearchOf(fullScan, wmicOutput, runOf) == WindowsSearchAsWritten(fullScan)
  {
    var drives := DriveLines(wmicOutput);
    assert DriveRuns(drives, runOf) == [];
  }

  /** For instance the empty `wmic` output. */
  lemma WindowsSearchOfEmptyOutput(fullScan: bool, runOf: string -> ProcessRun)
    ensures WindowsSearchOf(fullScan, "", runOf) == WindowsSearchAsWritten(fullScan)
  {
    assert Split("", '\n') == [""];
    assert Trim("") == "";
    WindowsSearchOfNoDrives(fullScan, "", runOf);
  }

  /** The message announcing the search of one drive. */
  function DriveAnnouncement(drive: string): string {
    "Searching in drive: " + Trim(drive) + "\nCommand: " + DirCommand + " " + Join(DirArgs(drive), ' ')
  }

  function DriveEvents(drives: seq<DriveRun>): seq<SearchYield> {
    if drives == [] then []
    else
      var d := drives[0];
      [Info(DriveAnnouncement(d.drive))] + RunEvents(d.run) + DriveEvents(drives[1..])
  }

  /** Every drive of the loop is announced. */
  lemma {:induction false} DriveEventsAnnounce(drives: seq<DriveRun>)
    ensures forall k :: 0 <= k < |drives| ==> Info(DriveAnnouncement(drives[k].drive)) in DriveEvents(drives)
  {
    if drives != [] {
      DriveEventsAnnounce(drives[1..]);
      var d := drives[0];
      var rest := DriveEvents(drives[1..]);
      assert DriveEvents(drives) == ([Info(DriveAnnouncement(d.drive))] + RunEvents(d.run)) + rest;
      forall k | 0 <= k < |drives|
        ensures Info(DriveAnnouncement(drives[k].drive)) in DriveEvents(drives)
      {
        if k > 0 {
          assert drives[k] == drives[1..][k - 1];
        }
      }
    }
  }

  /** The drive loop's iterations for the drive lines, `runOf` giving the
      outcome of the `dir` search spawned for a drive line. */
  function DriveRuns(drives: seq<string>, runOf: string -> ProcessRun): (r: seq<DriveRun>)
    ensures |r| == |drives|
    ensures forall k :: 0 <= k < |r| ==> r[k] == DriveRun(drives[k], runOf(drives[k]))
  {
    if drives == [] then [] else [DriveRun(drives[0], runOf(drives[0]))] + DriveRuns(drives[1..], runOf)
  }

  /** `searchGitWindows(fullScan)` as evidently intended: the drive loop
      runs over the drive lines of the `wmic` output once it has ended. */
  function WindowsSearchOf(fullScan: bool, wmicOutput: string, runOf: string -> ProcessRun): seq<SearchYield> {
    WindowsSearch(fullScan, DriveRuns(DriveLines(wmicOutput), runOf))
  }

  /** The intended Windows source searches every drive line of the `wmic`
      output (and only those), and yields one candidate per line the drive
      searches printed. */
  lemma WindowsSearchOfEveryDrive(fullScan: bool, wmicOutput: string, runOf: string -> ProcessRun)
    ensures var drives := DriveLines(wmicOutput);
      && (forall k :: 0 <= k < |drives| ==>
            Info(DriveAnnouncement(drives[k])) in WindowsSearchOf(fullScan, wmicOutput, runOf))
      && CountPaths(WindowsSearchOf(fullScan, wmicOutput, runOf)) ==
           DriveLinesTotal(DriveRuns(drives, runOf))
  {
    var runs := DriveRuns(DriveLines(wmicOutput), runOf);
    DriveEventsAnnounce(runs);
    WindowsSearchCandidates(fullScan, runs);
  }

  /** The number of `path` events in a stream. */
  function CountPaths(events: seq<SearchYield>): nat {
    if events == [] then 0
    else (if events[0].Path? then 1 else 0) + CountPaths(events[1..])
  }

  lemma {:induction false} CountPathsAppend(a: seq<SearchYield>, b: seq<SearchYield>)
    ensures CountPaths(a + b) == CountPaths(a) + CountPaths(b)
  {
    if a != [] {
      assert (a + b)[0] == a[0] && (a + b)[1..] == a[1..] + b;
      CountPathsAppend(a[1..], b);
    } else {
      assert a + b == b;
    }
  }

  /** The number of lines a process produced, none if it did not start. */
  function LinesOf(run: ProcessRun): nat {
    if run.Ran? then |run.lines| else 0
  }

  /** Every stdout line, and nothing else, becomes one candidate. */
  lemma {:induction false} RunEventsCount(run: ProcessRun)
    ensures CountPaths(RunEvents(run)) == LinesOf(run)
  {
    match run
    case SpawnFailed(_) =>
    case Ran(lines, readError) =>
      var tail: seq<SearchYield> := if readError.Some? then [Error("Error reading output: " + readError.value)] else [];
      CountPathsAppend(PathEvents(lines), tail);
      PathEventsCount(lines);
      if readError.Some? {
        assert CountPaths(tail) == CountPaths(tail[1..]);
      }
  }

  lemma {:induction false} PathEventsCount(lines: seq<string>)
    ensures CountPaths(PathEvents(lines)) == |lines|
  {
    if lines != [] {
      PathEventsCount(lines[1..]);
      assert PathEvents(lines)[1..] == PathEvents(lines[1..]);
    }
  }

  /** The Unix source yields one candidate per line `find` printed; when
      `spawn` throws for `find` it yields the announcement and one error. */
  lemma UnixSearchCandidates(fullScan: bool, run: ProcessRun)
    ensures CountPaths(UnixSearch(fullScan, run)) == LinesOf(run)
    ensures run.SpawnFailed? ==>
              |UnixSearch(fullScan, run)| == 2 &&
              UnixSearch(fullScan, run)[0].Info? && UnixSearch(fullScan, run)[1].Error?
  {
    var head := [Info("Searching for .git directories with command: " + FindCommand + " " +
                      Join(FindArgs(fullScan), ' '))];
    CountPathsAppend(head, RunEvents(run));
    RunEventsCount(run);
  }

  /** The total number of lines the per-drive searches printed. */
  function DriveLinesTotal(drives: seq<DriveRun>): nat {
    if drives == [] then 0 else LinesOf(drives[0].run) + DriveLinesTotal(drives[1..])
  }

  /** The Windows source yields one candidate per line any drive search
      printed; a drive whose search did not start contributes none. */
  lemma {:induction false} WindowsSearchCandidates(fullScan: bool, drives: seq<DriveRun>)
    ensures CountPaths(WindowsSearch(fullScan, drives)) == DriveLinesTotal(drives)
  {
    var head := [Info("Searching for drives with command: " + WmicCommand + " " + Join(WmicArgs(fullScan), ' '))];
    CountPathsAppend(head, DriveEvents(drives));
    DriveEventsCount(drives);
  }

  lemma {:induction false} DriveEventsCount(drives: seq<DriveRun>)
    ensures CountPaths(DriveEvents(drives)) == DriveLinesTotal(drives)
  {
    if drives != [] {
      var d := drives[0];
      var announce := [Info(DriveAnnouncement(d.drive))];
      DriveEventsCount(drives[1..]);
      RunEventsCount(d.run);
      CountPathsAppend(announce, RunEvents(d.run));
      CountPathsAppend(announce + RunEvents(d.run), DriveEvents(drives[1..]));
    }
  }

  /** A `path` event built from a printed line, which is how both sources
      make every candidate, has no white space at its ends. */
  lemma {:induction false} PathsAreTrimmed(lines: seq<string>, k: nat)
    requires k < |lines|
    ensures PathEvents(lines)[k].data == Trim(PathEvents(lines)[k].data)
  {
    TrimIdempotent(lines[k]);
  }

  // ------------------------------------------------------------ dispatch

  /** The strategies `scan_dot_git` maps platforms to. */
  datatype Strategy = SearchWindows | SearchUnix

  /** `scan_dot_git[os.platform()]`: Windows uses `searchGitWindows`, macOS
      and Linux use `searchGitUnix`; every other platform has no entry, and
      calling the missing entry throws. */
  function ScanDotGit(platform: string): (s: Option<Strategy>)
    ensures s == Some(SearchWindows) <==> platform == "win32"
    ensures s == Some(SearchUnix) <==> platform == "darwin" || platform == "linux"
    ensures s == None <==> platform !in {"win32", "darwin", "linux"}
  {
    if platform == "win32" then Some(SearchWindows)
    else if platform == "darwin" || platform == "linux" then Some(SearchUnix)
    else None
  }

  /** The events of the chosen strategy, given the outcome of the process(es)
      it spawns: the `find` run on Unix; on Windows the `wmic` output and the
      `dir` run of each drive line, searched as evidently intended. */
  function SearchEvents(strategy: Strategy, fullScan: bool, unixRun: ProcessRun,
                        wmicOutput: string, driveRun: string -> ProcessRun): seq<SearchYield>
  {
    match strategy
    case SearchUnix => UnixSearch(fullScan, unixRun)
    case SearchWindows => WindowsSearchOf(fullScan, wmicOutput, driveRun)
  }
}
