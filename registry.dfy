/** The `LocalArcService` object: the two in-memory sets of tracked arcs and
    tracked parent directories, their persisted copy in `localArcs.json`, the
    add/remove operations, the self-healing `getUserArcs` read and the entry
    point of a scan. */
module Registry {
  import opened Optional
  import opened Text
  import opened OrderedSets
  import opened FileSystem
  import opened LocalArcs
  import opened GitSearch
  import opened ScanTally

  /** The JSON document `saveToFile` writes: both sets as arrays, in
      iteration order. */
  datatype Document = Document(directories: seq<string>, localArcs: seq<string>)

  /** What `addLocalArcs` resolves to. */
  datatype AddResult = AddResult(success: bool, message: string, arcs: seq<string>)

  // ------------------------------------------------ what getUserArcs lists

  /** Tracked directories `getUserArcs` can list: `readdirSync` throws on an
      existing path that is not a directory. */
  predicate DirectoriesReadable(fs: FS, dirs: seq<string>) {
    forall d :: d in dirs && d in fs ==> fs[d].Dir?
  }

  /** The records of the entries `${dir}/${name}` that are arcs, in listing
      order. */
  function ChildArcs(fs: FS, dir: string, names: seq<string>): seq<ArcRecord>
    requires forall n :: n in names ==> ChildPath(dir, n) in fs
  {
    if names == [] then []
    else
      var prev := ChildArcs(fs, dir, names[..|names| - 1]);
      var path := ChildPath(dir, names[|names| - 1]);
      if IsArc(fs, path) then prev + [RecordOf(path)] else prev
  }

  /** For each tracked directory that exists, in order, the arcs among its
      entries. */
  function DirectoryArcs(fs: FS, dirs: seq<string>): seq<ArcRecord>
    requires ListingsResolve(fs) && DirectoriesReadable(fs, dirs)
  {
    if dirs == [] then []
    else
      var prev := DirectoryArcs(fs, dirs[..|dirs| - 1]);
      var d := dirs[|dirs| - 1];
      if d in fs then prev + ChildArcs(fs, d, fs[d].entries) else prev
  }

  /** One record per path, in order. */
  function Records(paths: seq<string>): (r: seq<ArcRecord>)
    ensures |r| == |paths|
    ensures forall k {:trigger r[k]} :: 0 <= k < |paths| ==> r[k] == RecordOf(paths[k])
  {
    if paths == [] then [] else Records(paths[..|paths| - 1]) + [RecordOf(paths[|paths| - 1])]
  }

  lemma RecordsSnoc(paths: seq<string>, p: string)
    ensures Records(paths + [p]) == Records(paths) + [RecordOf(p)]
  {
    assert (paths + [p])[..|paths|] == paths;
  }

  /** What `getUserArcs` returns for the given sets. */
  function UserArcs(fs: FS, dirs: seq<string>, arcs: seq<string>): seq<ArcRecord>
    requires ListingsResolve(fs) && DirectoriesReadable(fs, dirs)
  {
    DirectoryArcs(fs, dirs) + Records(Existing(fs, arcs))
  }

  /** Every record a directory listing contributes is the record of an
      existing arc. */
  lemma {:induction false} ChildArcsShape(fs: FS, dir: string, names: seq<string>)
    requires forall n :: n in names ==> ChildPath(dir, n) in fs
    ensures forall rec :: rec in ChildArcs(fs, dir, names) ==>
      rec == RecordOf(rec.location) && rec.location in fs && IsArc(fs, rec.location)
  {
    if names != [] {
      ChildArcsShape(fs, dir, names[..|names| - 1]);
    }
  }

  lemma {:induction false} DirectoryArcsShape(fs: FS, dirs: seq<string>)
    requires ListingsResolve(fs) && DirectoriesReadable(fs, dirs)
    ensures forall rec :: rec in DirectoryArcs(fs, dirs) ==>
      rec == RecordOf(rec.location) && rec.location in fs && IsArc(fs, rec.location)
  {
    if dirs != [] {
      DirectoryArcsShape(fs, dirs[..|dirs| - 1]);
      var d := dirs[|dirs| - 1];
      if d in fs {
        ChildArcsShape(fs, d, fs[d].entries);
      }
    }
  }

  /** Every record `getUserArcs` returns describes an existing path that is
      either an arc found in a tracked directory or a tracked arc, named
      after its last path segment and with both update stamps empty. */
  lemma UserArcsShape(fs: FS, dirs: seq<string>, arcs: seq<string>)
    requires ListingsResolve(fs) && DirectoriesReadable(fs, dirs)
    ensures forall rec :: rec in UserArcs(fs, dirs, arcs) ==>
      && rec.location in fs
      && (IsArc(fs, rec.location) || rec.location in arcs)
      && rec.name == LastSegment(rec.location)
      && rec.local_last_update == "" && rec.remote_last_update == ""
  {
    DirectoryArcsShape(fs, dirs);
    var kept := Existing(fs, arcs);
    ExistingProperties(fs, arcs);
    forall rec | rec in Records(kept)
      ensures rec == RecordOf(rec.location) && rec.location in fs && rec.location in arcs
    {
      var k :| 0 <= k < |kept| && Records(kept)[k] == rec;
    }
  }

  /** The inner loop of `getUserArcs`: the arcs among a directory's entries. */
  method CollectChildArcs(fs: FS, directory: string, files: seq<string>) returns (found: seq<ArcRecord>)
    requires forall n :: n in files ==> ChildPath(directory, n) in fs
    ensures found == ChildArcs(fs, directory, files)
    ensures forall r :: r in found ==> r.local_last_update == "" && r.remote_last_update == ""
  {
    found := [];
    for j := 0 to |files|
      invariant found == ChildArcs(fs, directory, files[..j])
      invariant forall r :: r in found ==> r.local_last_update == "" && r.remote_last_update == ""
    {
      assert files[..j + 1][..j] == files[..j];
      var filePath := ChildPath(directory, files[j]);
      if IsArc(fs, filePath) {
        found := found + [RecordOf(filePath)];
      }
    }
    assert files[..|files|] == files;
  }

  // --------------------------------------------------------- the service

  class LocalArcService {
    /** `LocalArcService.directories`, in insertion order. */
    var directories: seq<string>
    /** `LocalArcService.localArcs`, in insertion order. */
    var localArcs: seq<string>
    /** The content of `localArcs.json`; `None` while the file does not exist. */
    var saved: Option<Document>
    /** The number of times `saveToFile` has written the file. */
    var saveCount: nat

    /** Both sets are sets: no path occurs twice. */
    ghost predicate Valid()
      reads this
    {
      NoDup(directories) && NoDup(localArcs)
    }

    /** The document `saveToFile` would write now. */
    function Current(): Document
      reads this
    {
      Document(directories, localArcs)
    }

    /** The file holds what memory holds. */
    predicate Persisted()
      reads this
    {
      saved == Some(Current())
    }

    /** The service as the module creates it: both sets empty, the data file
        as it is on disk. */
    constructor (document: Option<Document>)
      ensures Valid()
      ensures directories == [] && localArcs == []
      ensures saved == document && saveCount == 0
    {
      directories := [];
      localArcs := [];
      saved := document;
      saveCount := 0;
    }

    /** `saveToFile`: write both sets to the data file. */
    method SaveToFile()
      modifies this
      ensures Persisted() && saveCount == old(saveCount) + 1
      ensures directories == old(directories) && localArcs == old(localArcs)
    {
      saved := Some(Document(directories, localArcs));
      saveCount := saveCount + 1;
    }

    /** `loadFromFile`: when the data file exists, replace both sets by
        `new Set(...)` of its arrays (dropping repeated entries); otherwise
        change nothing. */
    method LoadFromFile()
      requires Valid()
      modifies this
      ensures Valid()
      ensures saved == old(saved) && saveCount == old(saveCount)
      ensures old(saved).None? ==>
                directories == old(directories) && localArcs == old(localArcs)
      ensures old(saved).Some? ==>
                localArcs == FromArray(old(saved).value.localArcs) &&
                directories == FromArray(old(saved).value.directories)
    {
      if saved.Some? {
        var document := saved.value;
        localArcs := FromArray(document.localArcs);
        directories := FromArray(document.directories);
      }
    }

    /** `addLocalArc`: add the arc; save only if it was not tracked yet. */
    method AddLocalArc(arc: string)
      requires Valid()
      modifies this
      ensures Valid()
      ensures localArcs == Insert(old(localArcs), arc) && directories == old(directories)
      ensures arc in old(localArcs) ==>
                localArcs == old(localArcs) && saved == old(saved) && saveCount == old(saveCount)
      ensures arc !in old(localArcs) ==>
                localArcs == old(localArcs) + [arc] && Persisted() && saveCount == old(saveCount) + 1
    {
      if arc !in localArcs {
        NoDupAppend(localArcs, arc);
        localArcs := localArcs + [arc];
        SaveToFile();
      }
    }

    /** `addLocalArcs`: add each arc in turn and save after each one, added
        or not; resolves to success with the input list. */
    method AddLocalArcs(arcs: seq<string>) returns (result: AddResult)
      requires Valid()
      modifies this
      ensures Valid()
      ensures localArcs == old(localArcs) + FromArray(Fresh(old(localArcs), arcs))
      ensures directories == old(directories)
      ensures saveCount == old(saveCount) + |arcs|
      ensures arcs == [] ==> saved == old(saved)
      ensures arcs != [] ==> Persisted()
      ensures result == AddResult(true, "Arcs added successfully", arcs)
    {
      for i := 0 to |arcs|
        invariant Valid()
        invariant localArcs == InsertAll(old(localArcs), arcs[..i])
        invariant directories == old(directories)
        invariant saveCount == old(saveCount) + i
        invariant i == 0 ==> saved == old(saved)
        invariant i > 0 ==> Persisted()
      {
        assert arcs[..i + 1][..i] == arcs[..i];
        if arcs[i] !in localArcs {
          NoDupAppend(localArcs, arcs[i]);
          localArcs := localArcs + [arcs[i]];
        }
        SaveToFile();
      }
      assert arcs[..|arcs|] == arcs;
      InsertAllAppendsFresh(old(localArcs), arcs);
      result := AddResult(true, "Arcs added successfully", arcs);
    }

    /** `removeLocalArc`: delete the arc if tracked, keeping the order of the
        rest, and save; an untracked path changes nothing. */
    method RemoveLocalArc(location: string)
      requires Valid()
      modifies this
      ensures Valid()
      ensures directories == old(directories)
      ensures localArcs == Without(old(localArcs), location)
      ensures forall k :: 0 <= k < |old(localArcs)| && old(localArcs)[k] == location ==>
                localArcs == old(localArcs)[..k] + old(localArcs)[k + 1..]
      ensures location !in old(localArcs) ==>
                localArcs == old(localArcs) && saved == old(saved) && saveCount == old(saveCount)
      ensures location in old(localArcs) ==> Persisted() && saveCount == old(saveCount) + 1
    {
      WithoutProperties(localArcs, location);
      forall k | 0 <= k < |localArcs| && localArcs[k] == location
        ensures Without(localArcs, location) == localArcs[..k] + localArcs[k + 1..]
      {
        WithoutAt(localArcs, k);
      }
      if location in localArcs {
        localArcs := Without(localArcs, location);
        SaveToFile();
      }
    }

    /** `addDirectory`: add the directory; save only if it was not tracked
        yet. */
    method AddDirectory(directory: string)
      requires Valid()
      modifies this
      ensures Valid()
      ensures directories == Insert(old(directories), directory) && localArcs == old(localArcs)
      ensures directory in old(directories) ==>
                directories == old(directories) && saved == old(saved) && saveCount == old(saveCount)
      ensures directory !in old(directories) ==>
                directories == old(directories) + [directory] && Persisted() &&
                saveCount == old(saveCount) + 1
    {
      if directory !in directories {
        NoDupAppend(directories, directory);
        directories := directories + [directory];
        SaveToFile();
      }
    }

    /** `removeDirectory`: delete the directory if tracked, keeping the order
        of the rest, and save; an untracked path changes nothing. */
    method RemoveDirectory(directory: string)
      requires Valid()
      modifies this
      ensures Valid()
      ensures localArcs == old(localArcs)
      ensures directories == Without(old(directories), directory)
      ensures forall k :: 0 <= k < |old(directories)| && old(directories)[k] == directory ==>
                directories == old(directories)[..k] + old(directories)[k + 1..]
      ensures directory !in old(directories) ==>
                directories == old(directories) && saved == old(saved) && saveCount == old(saveCount)
      ensures directory in old(directories) ==> Persisted() && saveCount == old(saveCount) + 1
    {
      WithoutProperties(directories, directory);
      forall k | 0 <= k < |directories| && directories[k] == directory
        ensures Without(directories, directory) == directories[..k] + directories[k + 1..]
      {
        WithoutAt(directories, k);
      }
      if directory in directories {
        directories := Without(directories, directory);
        SaveToFile();
      }
    }

    /** `getUserArcs`: list the arcs among the entries of every existing
        tracked directory, then every existing tracked arc; delete (and save
        after each deletion) every tracked directory and arc that no longer
        exists. */
    method GetUserArcs(fs: FS) returns (list: seq<ArcRecord>)
      requires Valid() && ListingsResolve(fs) && DirectoriesReadable(fs, directories)
      modifies this
      ensures Valid()
      ensures list == UserArcs(fs, old(directories), old(localArcs))
      ensures directories == Existing(fs, old(directories))
      ensures localArcs == Existing(fs, old(localArcs))
      ensures saveCount == old(saveCount) + (|old(directories)| - |directories|)
                                          + (|old(localArcs)| - |localArcs|)
      ensures directories == old(directories) && localArcs == old(localArcs) ==>
                saved == old(saved)
      ensures directories != old(directories) || localArcs != old(localArcs) ==>
                Persisted()
    {
      var fromDirectories := ListDirectories(fs);
      var fromArcs := ListArcs(fs);
      list := fromDirectories + fromArcs;
    }

    /** Where a pass of `getUserArcs` over the snapshot `s` stands after `i`
        turns, `current` being the live set it deletes from and `s0`, `c0`
        the file and the save count when the pass began: the survivors of
        `s[..i]` followed by the unvisited rest, one save per deletion so
        far, and the file untouched until the first deletion and matching
        memory after it. */
    ghost predicate Pruned(fs: FS, s: seq<string>, i: nat, current: seq<string>,
                           s0: Option<Document>, c0: nat)
      reads this
    {
      && i <= |s|
      && current == Existing(fs, s[..i]) + s[i..]
      && |Existing(fs, s[..i])| <= i
      && saveCount == c0 + (i - |Existing(fs, s[..i])|)
      && (i == |Existing(fs, s[..i])| ==> saved == s0)
      && (i != |Existing(fs, s[..i])| ==> Persisted())
    }

    /** The first loop of `getUserArcs`, over the tracked directories. */
    method ListDirectories(fs: FS) returns (list: seq<ArcRecord>)
      requires Valid() && ListingsResolve(fs) && DirectoriesReadable(fs, directories)
      modifies this
      ensures Valid()
      ensures list == DirectoryArcs(fs, old(directories))
      ensures directories == Existing(fs, old(directories)) && localArcs == old(localArcs)
      ensures |directories| <= |old(directories)|
      ensures saveCount == old(saveCount) + (|old(directories)| - |directories|)
      ensures directories == old(directories) ==> saved == old(saved)
      ensures directories != old(directories) ==> Persisted()
    {
      // The source iterates the live Set while deleting its current element,
      // which visits exactly the elements present when the loop started.
      var dirs := directories;
      list := [];
      assert dirs[..0] == [] && dirs[0..] == dirs;
      for i := 0 to |dirs|
        invariant Valid() && localArcs == old(localArcs)
        invariant Pruned(fs, dirs, i, directories, old(saved), old(saveCount))
        invariant list == DirectoryArcs(fs, dirs[..i])
      {
        list := VisitDirectory(fs, dirs, i, list, old(saved), old(saveCount));
      }
      assert dirs[..|dirs|] == dirs && dirs[|dirs|..] == [];
      assert directories == Existing(fs, dirs);
      assert saveCount == old(saveCount) + (|dirs| - |directories|);
      ExistingProperties(fs, dirs);
    }

    /** One turn of the directory loop: the arcs among the entries of an
        existing directory are listed and the directory stays; a missing
        one, which sits right after the directories kept so far, is deleted
        and the set saved. */
    method VisitDirectory(fs: FS, dirs: seq<string>, i: nat, list: seq<ArcRecord>,
                          ghost s0: Option<Document>, ghost c0: nat)
      returns (list': seq<ArcRecord>)
      requires Valid() && ListingsResolve(fs) && DirectoriesReadable(fs, dirs) && i < |dirs|
      requires Pruned(fs, dirs, i, directories, s0, c0)
      requires list == DirectoryArcs(fs, dirs[..i])
      modifies this
      ensures Valid() && localArcs == old(localArcs)
      ensures Pruned(fs, dirs, i + 1, directories, s0, c0)
      ensures list' == DirectoryArcs(fs, dirs[..i + 1])
    {
      var directory := dirs[i];
      PruneStep(fs, dirs, i);
      SplitAt(dirs, i);
      if directory in fs {
        var found := CollectChildArcs(fs, directory, fs[directory].entries);
        list' := list + found;
      } else {
        RemoveDirectory(directory);
        list' := list;
      }
    }

    /** The second loop of `getUserArcs`, over the tracked arcs. */
    method ListArcs(fs: FS) returns (list: seq<ArcRecord>)
      requires Valid()
      modifies this
      ensures Valid()
      ensures list == Records(Existing(fs, old(localArcs)))
      ensures localArcs == Existing(fs, old(localArcs)) && directories == old(directories)
      ensures |localArcs| <= |old(localArcs)|
      ensures saveCount == old(saveCount) + (|old(localArcs)| - |localArcs|)
      ensures localArcs == old(localArcs) ==> saved == old(saved)
      ensures localArcs != old(localArcs) ==> Persisted()
    {
      var arcs := localArcs;
      list := [];
      assert arcs[..0] == [] && arcs[0..] == arcs;
      for i := 0 to |arcs|
        invariant Valid() && directories == old(directories)
        invariant Pruned(fs, arcs, i, localArcs, old(saved), old(saveCount))
        invariant list == Records(Existing(fs, arcs[..i]))
      {
        list := VisitArc(fs, arcs, i, list, old(saved), old(saveCount));
      }
      assert arcs[..|arcs|] == arcs && arcs[|arcs|..] == [];
      assert localArcs == Existing(fs, arcs);
      assert saveCount == old(saveCount) + (|arcs| - |localArcs|);
      ExistingProperties(fs, arcs);
    }

    /** One turn of the arc loop: an existing arc is listed and stays; a
        missing one, which sits right after the arcs kept so far, is deleted
        and the set saved. */
    method VisitArc(fs: FS, arcs: seq<string>, i: nat, list: seq<ArcRecord>,
                    ghost s0: Option<Document>, ghost c0: nat)
      returns (list': seq<ArcRecord>)
      requires Valid() && i < |arcs|
      requires Pruned(fs, arcs, i, localArcs, s0, c0)
      requires list == Records(Existing(fs, arcs[..i]))
      modifies this
      ensures Valid() && directories == old(directories)
      ensures Pruned(fs, arcs, i + 1, localArcs, s0, c0)
      ensures list' == Records(Existing(fs, arcs[..i + 1]))
    {
      var arc, kept := arcs[i], Existing(fs, arcs[..i]);
      PruneStep(fs, arcs, i);
      if arc in fs {
        RecordsSnoc(kept, arc);
        list' := list + [RecordOf(arc)];
      } else {
        RemoveLocalArc(arc);
        list' := list;
      }
    }

    /** `scanFileSystemForArcs`: heal the registry through `getUserArcs`
        (whose list is not used), pick the candidate source for the platform,
        and run the scan loop over what it yields, judging newness against
        the healed set of tracked arcs. */
    method ScanFileSystemForArcs(platform: string, fullScan: bool, unixRun: ProcessRun,
                                 wmicOutput: string, driveRun: string -> ProcessRun,
                                 fs: FS, parentOf: map<string, string>)
      returns (log: seq<Emission>)
      requires Valid() && ListingsResolve(fs) && DirectoriesReadable(fs, directories)
      requires ScanDotGit(platform).Some?
      requires CandidatesResolve(fs, parentOf,
                 SearchEvents(ScanDotGit(platform).value, fullScan, unixRun, wmicOutput, driveRun))
      modifies this
      ensures Valid()
      ensures directories == Existing(fs, old(directories))
      ensures localArcs == Existing(fs, old(localArcs))
      ensures directories == old(directories) && localArcs == old(localArcs) ==>
                saved == old(saved)
      ensures directories != old(directories) || localArcs != old(localArcs) ==>
                Persisted()
      ensures saveCount == old(saveCount) + (|old(directories)| - |directories|)
                                          + (|old(localArcs)| - |localArcs|)
      ensures log == ScanLog(platform,
                             SearchEvents(ScanDotGit(platform).value, fullScan, unixRun, wmicOutput, driveRun),
                             fs, parentOf, localArcs)
    {
      var currentUserArcs := GetUserArcs(fs);
      var strategy := ScanDotGit(platform).value;
      var events := SearchEvents(strategy, fullScan, unixRun, wmicOutput, driveRun);
      log := RunScan(platform, events, fs, parentOf, localArcs);
    }
  }

  /** Saving and then loading gives back both sets as they were, element by
      element and in the same order, and leaves the file matching memory. */
  method SaveThenLoad(service: LocalArcService)
    requires service.Valid()
    modifies service
    ensures service.Valid() && service.Persisted()
    ensures service.directories == old(service.directories)
    ensures service.localArcs == old(service.localArcs)
  {
    service.SaveToFile();
    FromArrayOfNoDup(service.directories);
    FromArrayOfNoDup(service.localArcs);
    service.LoadFromFile();
  }
}
