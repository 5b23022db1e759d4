/** Small worked cases of `getUserArcs` and of the scan, each over any
    filesystem of the described shape. */
module Scenarios {
  import opened Optional
  import opened FileSystem
  import opened LocalArcs
  import opened GitSearch
  import opened ScanTally
  import opened Registry

  /** A tracked directory holding an arc and a plain entry: only the arc is
      listed, named after its entry, with empty timestamps. */
  lemma DirectoryWithOneArc(fs: FS, dir: string, arc: string, plain: string)
    requires ListingsResolve(fs) && dir in fs && fs[dir] == Dir([arc, plain])
    requires IsArc(fs, ChildPath(dir, arc)) && !IsArc(fs, ChildPath(dir, plain))
    ensures UserArcs(fs, [dir], []) == [ArcRecord(dir + "/" + arc, arc, "", "")]
  {
    assert arc in fs[dir].entries;
    ChildRecord(dir, arc);
    var names := [arc, plain];
    assert names[..1] == [arc] && [arc][..0] == [];
    var r := RecordOf(ChildPath(dir, arc));
    assert ChildArcs(fs, dir, [arc]) == [r];
    assert ChildArcs(fs, dir, names) == [r];
    assert [dir][..0] == [];
    assert DirectoryArcs(fs, [dir]) == [] + [r];
    assert Records(Existing(fs, [])) == [];
  }

  /** An arc that is tracked on its own and also sits in a tracked
      directory is listed twice: the list is not deduplicated. */
  lemma ArcListedTwice(fs: FS, dir: string, arc: string)
    requires ListingsResolve(fs) && dir in fs && fs[dir] == Dir([arc])
    requires IsArc(fs, ChildPath(dir, arc))
    ensures var r := ArcRecord(dir + "/" + arc, arc, "", "");
      UserArcs(fs, [dir], [ChildPath(dir, arc)]) == [r, r]
  {
    assert arc in fs[dir].entries;
    ChildRecord(dir, arc);
    var path := ChildPath(dir, arc);
    var r := RecordOf(path);
    assert [arc][..0] == [];
    assert ChildArcs(fs, dir, [arc]) == [r];
    assert [dir][..0] == [];
    assert DirectoryArcs(fs, [dir]) == [] + [r];
    assert Existing(fs, [path]) == [path] by {
      assert [path][1..] == [];
    }
    assert [path][..0] == [];
    assert Records([path]) == [] + [r];
  }

  /** One candidate that reveals an arc: one update, then the same tally as
      `searchFinished`. The arc is counted as found and listed in
      `new_arcs` either way; it is counted as new and announced only when
      it is not tracked. */
  lemma ScanOfOneArc(platform: string, fs: FS, parentOf: map<string, string>,
                     candidate: string, tracked: seq<string>)
    requires Resolves(fs, parentOf, candidate)
    requires fs[candidate].Dir? && IsArc(fs, parentOf[candidate])
    ensures var parent := parentOf[candidate];
      var t := if parent in tracked then Tally(platform, [], 1, 1, 0, [parent])
               else Tally(platform, [Info("Found new arc: " + parent)], 1, 1, 1, [parent]);
      ScanLog(platform, [Path(candidate)], fs, parentOf, tracked) ==
        [SearchUpdate(t), SearchFinished(t)]
  {
    var events := [Path(candidate)];
    assert events[..0] == [];
    var step := Step(Initial(platform), Path(candidate), fs, parentOf, tracked);
    assert Tallied(Initial(platform), events, fs, parentOf, tracked) == (step.0, [] + step.1);
    var parent := parentOf[candidate];
    assert FoundArc(fs, parentOf, candidate) == Some(parent);
    assert [] + [parent] == [parent];
    if parent !in tracked {
      assert [] + [Info("Found new arc: " + parent)] == [Info("Found new arc: " + parent)];
    }
  }

  /** A candidate that reveals no arc is counted and sends nothing; the
      scan only finishes. */
  lemma ScanOfNonArc(platform: string, fs: FS, parentOf: map<string, string>,
                     candidate: string, tracked: seq<string>)
    requires Resolves(fs, parentOf, candidate)
    requires !(fs[candidate].Dir? && IsArc(fs, parentOf[candidate]))
    ensures ScanLog(platform, [Path(candidate)], fs, parentOf, tracked) ==
              [SearchFinished(Tally(platform, [], 1, 0, 0, []))]
  {
    var events := [Path(candidate)];
    assert events[..0] == [];
    var step := Step(Initial(platform), Path(candidate), fs, parentOf, tracked);
    assert Tallied(Initial(platform), events, fs, parentOf, tracked) == (step.0, [] + step.1);
  }

  /** When `spawn` throws for `find`, the scan sends the announcement, then
      the error, then finishes with no candidate counted. */
  lemma ScanWithoutFind(platform: string, fullScan: bool, reason: string, fs: FS,
                        parentOf: map<string, string>, tracked: seq<string>)
    ensures var events := UnixSearch(fullScan, SpawnFailed(reason));
      var t := Tally(platform, events, 0, 0, 0, []);
      ScanLog(platform, events, fs, parentOf, tracked) ==
        [SearchUpdate(t.(infos := events[..1])), SearchUpdate(t), SearchFinished(t)]
  {
    var events := UnixSearch(fullScan, SpawnFailed(reason));
    UnixSearchCandidates(fullScan, SpawnFailed(reason));
    var t0 := Initial(platform);
    var t1 := t0.(infos := [events[0]]);
    var t2 := t0.(infos := events);
    assert events[..1] == [events[0]] && events[..1][..0] == [];
    assert t0.infos + [events[0]] == [events[0]];
    assert Step(t0, events[0], fs, parentOf, tracked) == (t1, [SearchUpdate(t1)]);
    assert Tallied(t0, [], fs, parentOf, tracked) == (t0, []);
    assert [] + [SearchUpdate(t1)] == [SearchUpdate(t1)];
    assert Tallied(t0, events[..1], fs, parentOf, tracked) == (t1, [SearchUpdate(t1)]);
    assert events[..2] == events && events[..2][..1] == events[..1];
    assert [events[0]] + [events[1]] == events;
    assert Step(t1, events[1], fs, parentOf, tracked) == (t2, [SearchUpdate(t2)]);
    assert events[|events| - 1] == events[1] && events[..|events| - 1] == events[..1];
    assert [SearchUpdate(t1)] + [SearchUpdate(t2)] == [SearchUpdate(t1), SearchUpdate(t2)];
    assert Tallied(t0, events, fs, parentOf, tracked) == (t2, [SearchUpdate(t1), SearchUpdate(t2)]);
  }

  /** As the Windows source is written, a scan on Windows sends only the
      drive-query announcement and finishes with nothing found. */
  lemma WindowsScanAsWritten(fullScan: bool, fs: FS, parentOf: map<string, string>,
                             tracked: seq<string>)
    ensures var events := WindowsSearchAsWritten(fullScan);
      var t := Tally("win32", events, 0, 0, 0, []);
      ScanLog("win32", events, fs, parentOf, tracked) == [SearchUpdate(t), SearchFinished(t)]
  {
    var events := WindowsSearchAsWritten(fullScan);
    WindowsSearchAsWrittenFindsNothing(fullScan);
    var t0 := Initial("win32");
    var t1 := t0.(infos := events);
    assert events[..0] == [];
    assert [] + [events[0]] == events;
    assert Step(t0, events[0], fs, parentOf, tracked) == (t1, [SearchUpdate(t1)]);
    assert events[..|events| - 1] == [] && events[|events| - 1] == events[0];
    assert Tallied(t0, [], fs, parentOf, tracked) == (t0, []);
    assert [] + [SearchUpdate(t1)] == [SearchUpdate(t1)];
    assert Tallied(t0, events, fs, parentOf, tracked) == (t1, [SearchUpdate(t1)]);
  }
}
