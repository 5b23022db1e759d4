/** The part of the filesystem the arc service looks at, as a value: every
    existing path maps to a node, and a directory node lists its entries in
    the order `readdirSync` returns them. Symbolic links are taken as already
    resolved. */
module FileSystem {
  import opened OrderedSets

  datatype Node = File | Dir(entries: seq<string>)

  type FS = map<string, Node>

  /** The file whose presence makes a directory an arc. */
  const Marker: string := "isa.investigation.xlsx"

  /** The path `${dir}/${name}` that the service builds for an entry. */
  function ChildPath(dir: string, name: string): string {
    dir + "/" + name
  }

  /** `isArc`: the path is a directory and `<path>/isa.investigation.xlsx`
      exists. `statSync` throws on a path that does not exist, so the
      caller must pass an existing one. */
  predicate IsArc(fs: FS, path: string)
    requires path in fs
  {
    fs[path].Dir? && ChildPath(path, Marker) in fs
  }

  /** Every entry a directory lists exists under its child path
      (`statSync` on it does not throw), and entry names hold no '/'. */
  predicate ListingsResolve(fs: FS) {
    forall p, n :: p in fs && fs[p].Dir? && n in fs[p].entries ==>
      '/' !in n && ChildPath(p, n) in fs
  }

  /** The listings agree with the map both ways: a single-segment child path
      exists exactly when its parent directory lists it. */
  ghost predicate Consistent(fs: FS) {
    && ListingsResolve(fs)
    && forall p, n :: p in fs && fs[p].Dir? && '/' !in n && ChildPath(p, n) in fs ==>
         n in fs[p].entries
  }

  /** On a consistent filesystem a path is an arc exactly when it is a
      directory whose own listing names the marker file. */
  lemma IsArcByListing(fs: FS, path: string)
    requires Consistent(fs) && path in fs
    ensures IsArc(fs, path) <==> fs[path].Dir? && Marker in fs[path].entries
  {
    assert '/' !in Marker;
  }

  /** The entries of `s` that exist, in the order of `s` (the survivors of
      a pass that deletes every missing path). */
  function Existing(fs: FS, s: seq<string>): seq<string> {
    if s == [] then []
    else if s[0] in fs then [s[0]] + Existing(fs, s[1..])
    else Existing(fs, s[1..])
  }

  /** The survivors are exactly the existing members, and a duplicate-free
      list stays duplicate-free. */
  lemma {:induction false} ExistingProperties(fs: FS, s: seq<string>)
    ensures forall y :: y in Existing(fs, s) <==> y in s && y in fs
    ensures |Existing(fs, s)| <= |s|
    ensures NoDup(s) ==> NoDup(Existing(fs, s))
    ensures (forall y :: y in s ==> y in fs) ==> Existing(fs, s) == s
    ensures |Existing(fs, s)| == |s| ==> Existing(fs, s) == s
  {
    if s != [] {
      ExistingProperties(fs, s[1..]);
      assert forall y :: y in s <==> y == s[0] || y in s[1..] by {
        assert s == [s[0]] + s[1..];
      }
      assert NoDup(s) ==> s[0] !in s[1..];
    }
  }

  /** One step of a pass that walks `s` and deletes each missing path in
      place: before step `i` the list is the survivors of `s[..i]` followed
      by `s[i..]`; a present path stays where it is, a missing one sits at
      the position right after the survivors. */
  lemma PruneStep(fs: FS, s: seq<string>, i: nat)
    requires i < |s|
    ensures var kept := Existing(fs, s[..i]);
      var current := kept + s[i..];
      && |kept| < |current| && current[|kept|] == s[i]
      && (s[i] in fs ==> Existing(fs, s[..i + 1]) == kept + [s[i]] &&
                         Existing(fs, s[..i + 1]) + s[i + 1..] == current)
      && (s[i] !in fs ==> Existing(fs, s[..i + 1]) == kept &&
                          current[..|kept|] + current[|kept| + 1..] == kept + s[i + 1..])
  {
    var kept := Existing(fs, s[..i]);
    assert s[..i + 1] == s[..i] + [s[i]];
    assert s[i..] == [s[i]] + s[i + 1..];
    ExistingAppend(fs, s[..i], [s[i]]);
    if s[i] in fs {
      assert Existing(fs, [s[i]]) == [s[i]];
      assert (kept + [s[i]]) + s[i + 1..] == kept + ([s[i]] + s[i + 1..]);
    } else {
      assert Existing(fs, [s[i]]) == [];
      assert kept + [] == kept;
      var current := kept + s[i..];
      assert current[..|kept|] == kept;
      assert current[|kept| + 1..] == s[i + 1..];
    }
  }

  /** Filtering distributes over concatenation. */
  lemma {:induction false} ExistingAppend(fs: FS, a: seq<string>, b: seq<string>)
    ensures Existing(fs, a + b) == Existing(fs, a) + Existing(fs, b)
  {
    if a != [] {
      var h, t := a[0], a[1..];
      assert [h] + t == a;
      assert (a + b)[0] == h && (a + b)[1..] == t + b;
      ExistingAppend(fs, t, b);
      var et, eb := Existing(fs, t), Existing(fs, b);
      assert [h] + (et + eb) == ([h] + et) + eb;
    } else {
      assert a + b == b;
    }
  }
}
