/** The `LocalArc` class: a tracked arc directory and the plain object its
    `toJSON` produces, which is what `getUserArcs` hands to the renderer. */
module LocalArcs {
  import opened Optional
  import opened Text
  import opened FileSystem

  /** An instance of `LocalArc`. `branch` and `remote` are filled in only by
      the git shell-outs `readBranch` and `readRemote`, which are not part of
      this model, so a new instance has neither. */
  datatype LocalArc = LocalArc(
    location: string,
    name: string,
    localLastUpdate: string,
    remoteLastUpdate: string,
    branch: Option<string>,
    remote: Option<string>)

  /** The object `toJSON` returns. */
  datatype ArcRecord = ArcRecord(
    location: string,
    name: string,
    local_last_update: string,
    remote_last_update: string)

  /** `new LocalArc(location)`: the name is `location.split('/').pop()`, the
      text after the last '/', and both update stamps are empty. */
  function NewLocalArc(location: string): (a: LocalArc)
    ensures a.location == location
    ensures '/' !in a.name && |a.name| <= |location|
    ensures location == location[..|location| - |a.name|] + a.name
    ensures |a.name| < |location| ==> location[|location| - |a.name| - 1] == '/'
    ensures a.localLastUpdate == "" && a.remoteLastUpdate == ""
    ensures a.branch == None && a.remote == None
  {
    LastSegmentIsSuffix(location);
    LocalArc(location, LastSegment(location), "", "", None, None)
  }

  /** `toJSON()`: the four public fields, without the git metadata. */
  function ToJSON(a: LocalArc): ArcRecord {
    ArcRecord(a.location, a.name, a.localLastUpdate, a.remoteLastUpdate)
  }

  /** Two instances serialise alike exactly when they agree on location,
      name and both update stamps: branch and remote never reach the
      renderer. */
  lemma ToJSONForgetsGitMetadata(a: LocalArc, b: LocalArc)
    ensures ToJSON(a) == ToJSON(b) <==>
      a.location == b.location && a.name == b.name &&
      a.localLastUpdate == b.localLastUpdate && a.remoteLastUpdate == b.remoteLastUpdate
  {
  }

  /** `(new LocalArc(location)).toJSON()`, the record `getUserArcs` pushes. */
  function RecordOf(location: string): ArcRecord {
    ToJSON(NewLocalArc(location))
  }

  /** The record of a directory entry `${dir}/${name}` is named after the
      entry and has empty update stamps. */
  lemma ChildRecord(dir: string, name: string)
    requires '/' !in name
    ensures RecordOf(ChildPath(dir, name)) == ArcRecord(dir + "/" + name, name, "", "")
  {
    LastSegmentOfChild(dir, name);
  }
}
