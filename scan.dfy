/** The loop of `scanFileSystemForArcs`: it consumes the candidate source's
    events, keeps the running `searchUpdate` tally and sends a copy of it to
    the renderer as `searchUpdate` messages, then one `searchFinished`.
    The filesystem calls it makes (`statSync` on a candidate, `realpathSync`
    on the candidate's parent, `isArc` on that parent) are answered by the
    filesystem value and a map from candidate to its resolved parent. */
module ScanTally {
  import opened Optional
  import opened OrderedSets
  import opened FileSystem
  import opened GitSearch

  /** The `searchUpdate` object. */
  datatype Tally = Tally(
    platform: string,
    infos: seq<SearchYield>,
    arcCandidates: nat,
    arcFound: nat,
    arcNew: nat,
    newArcs: seq<string>)

  /** A message sent to the renderer, carrying a copy of the tally. */
  datatype Emission = SearchUpdate(tally: Tally) | SearchFinished(tally: Tally)

  /** The tally a scan starts from. */
  function Initial(platform: string): Tally {
    Tally(platform, [], 0, 0, 0, [])
  }

  /** The counters are ordered, each found arc is listed once, and the
      message list holds only info and error events. */
  predicate Ordered(t: Tally) {
    && t.arcNew <= t.arcFound <= t.arcCandidates
    && |t.newArcs| == t.arcFound
    && forall k :: 0 <= k < |t.infos| ==> !t.infos[k].Path?
  }

  /** `statSync(p)` and `realpathSync(p + "/..")` succeed, and `isArc` on
      the parent can stat it. */
  predicate Resolves(fs: FS, parentOf: map<string, string>, p: string) {
    p in fs && p in parentOf && parentOf[p] in fs
  }

  /** Every candidate of the stream resolves. */
  predicate CandidatesResolve(fs: FS, parentOf: map<string, string>, events: seq<SearchYield>) {
    forall k :: 0 <= k < |events| && events[k].Path? ==> Resolves(fs, parentOf, events[k].data)
  }

  /** The arc a candidate reveals: its resolved parent, when the candidate is
      a directory and the parent is an arc. */
  function FoundArc(fs: FS, parentOf: map<string, string>, p: string): Option<string>
    requires Resolves(fs, parentOf, p)
  {
    if fs[p].Dir? && IsArc(fs, parentOf[p]) then Some(parentOf[p]) else None
  }

  /** One pass of the loop body: the new tally and what it sends. The tally
      only moves forward, and one update carrying it is sent unless the
      event is a candidate that reveals no arc. */
  function Step(t: Tally, ev: SearchYield, fs: FS, parentOf: map<string, string>,
                tracked: seq<string>): (r: (Tally, seq<Emission>))
    requires ev.Path? ==> Resolves(fs, parentOf, ev.data)
    ensures r.0.arcCandidates == t.arcCandidates + (if ev.Path? then 1 else 0)
    ensures r.1 == [] <==> ev.Path? && FoundArc(fs, parentOf, ev.data).None?
    ensures r.1 == [] || r.1 == [SearchUpdate(r.0)]
  {
    if ev.Path? then
      var counted := t.(arcCandidates := t.arcCandidates + 1);
      var found := FoundArc(fs, parentOf, ev.data);
      if found.None? then (counted, [])
      else
        var parent := found.value;
        var isNew := parent !in tracked;
        var next := counted.(
          arcFound := counted.arcFound + 1,
          arcNew := if isNew then counted.arcNew + 1 else counted.arcNew,
          infos := if isNew then counted.infos + [Info("Found new arc: " + parent)] else counted.infos,
          newArcs := counted.newArcs + [parent]);
        (next, [SearchUpdate(next)])
    else
      var told := t.(infos := t.infos + [ev]);
      (told, [SearchUpdate(told)])
  }

  /** The tally after the events and the updates sent so far. */
  function Tallied(t0: Tally, events: seq<SearchYield>, fs: FS, parentOf: map<string, string>,
                   tracked: seq<string>): (Tally, seq<Emission>)
    requires CandidatesResolve(fs, parentOf, events)
  {
    if events == [] then (t0, [])
    else
      var prev := Tallied(t0, events[..|events| - 1], fs, parentOf, tracked);
      var next := Step(prev.0, events[|events| - 1], fs, parentOf, tracked);
      (next.0, prev.1 + next.1)
  }

  /** Everything a scan sends: the updates, then `searchFinished` with the
      final tally. */
  function ScanLog(platform: string, events: seq<SearchYield>, fs: FS,
                   parentOf: map<string, string>, tracked: seq<string>): seq<Emission>
    requires CandidatesResolve(fs, parentOf, events)
  {
    var r := Tallied(Initial(platform), events, fs, parentOf, tracked);
    r.1 + [SearchFinished(r.0)]
  }

  /** The loop itself, over a stream the candidate source yielded, with the
      tracked arcs as they stand during the scan. */
  method RunScan(platform: string, events: seq<SearchYield>, fs: FS,
                 parentOf: map<string, string>, tracked: seq<string>)
    returns (log: seq<Emission>)
    requires CandidatesResolve(fs, parentOf, events)
    ensures log == ScanLog(platform, events, fs, parentOf, tracked)
    ensures |log| >= 1 && log[|log| - 1].SearchFinished?
    ensures forall k :: 0 <= k < |log| - 1 ==> log[k].SearchUpdate?
    ensures forall k :: 0 <= k < |log| ==> Ordered(log[k].tally)
  {
    var update := Initial(platform);
    log := [];
    var i := 0;
    while i < |events|
      invariant 0 <= i <= |events|
      invariant (update, log) == Tallied(Initial(platform), events[..i], fs, parentOf, tracked)
      invariant Ordered(update)
      invariant forall k :: 0 <= k < |log| ==> log[k].SearchUpdate? && Ordered(log[k].tally)
    {
      assert events[..i + 1][..i] == events[..i];
      var ev := events[i];
      ghost var expected := Step(update, ev, fs, parentOf, tracked);
      ghost var sentBefore := log;
      if ev.Path? {
        update := update.(arcCandidates := update.arcCandidates + 1);
        var candidate := ev.data;
        if fs[candidate].Dir? && IsArc(fs, parentOf[candidate]) {
          var parentDir := parentOf[candidate];
          update := update.(arcFound := update.arcFound + 1);
          if parentDir !in tracked {
            update := update.(arcNew := update.arcNew + 1,
                              infos := update.infos + [Info("Found new arc: " + parentDir)]);
          }
          update := update.(newArcs := update.newArcs + [parentDir]);
          log := log + [SearchUpdate(update)];
        }
      } else {
        update := update.(infos := update.infos + [ev]);
        log := log + [SearchUpdate(update)];
      }
      assert update == expected.0 && log == sentBefore + expected.1;
      i := i + 1;
    }
    assert events[..i] == events;
    log := log + [SearchFinished(update)];
  }

  // ------------------------------------------------------------ the tally

  /** The arcs the candidates reveal, in stream order. */
  function FoundArcs(events: seq<SearchYield>, fs: FS, parentOf: map<string, string>): seq<string>
    requires CandidatesResolve(fs, parentOf, events)
  {
    if events == [] then []
    else
      var prev := FoundArcs(events[..|events| - 1], fs, parentOf);
      var ev := events[|events| - 1];
      if ev.Path? && FoundArc(fs, parentOf, ev.data).Some? then
        prev + [FoundArc(fs, parentOf, ev.data).value]
      else prev
  }

  /** The number of info and error events. */
  function CountMessages(events: seq<SearchYield>): nat {
    if events == [] then 0
    else CountMessages(events[..|events| - 1]) + (if events[|events| - 1].Path? then 0 else 1)
  }

  /** The messages a stream leaves in the tally: each info and error event
      as it came, and an announcement for each revealed arc that is not
      tracked, in stream order. */
  function Messages(events: seq<SearchYield>, fs: FS, parentOf: map<string, string>,
                    tracked: seq<string>): seq<SearchYield>
    requires CandidatesResolve(fs, parentOf, events)
  {
    if events == [] then []
    else
      var prev := Messages(events[..|events| - 1], fs, parentOf, tracked);
      var ev := events[|events| - 1];
      if !ev.Path? then prev + [ev]
      else if FoundArc(fs, parentOf, ev.data).Some? && FoundArc(fs, parentOf, ev.data).value !in tracked then
        prev + [Info("Found new arc: " + FoundArc(fs, parentOf, ev.data).value)]
      else prev
  }

  /** Every info and error event of the stream, and an announcement of every
      revealed arc that is not tracked, is among the messages; nothing else
      is. */
  lemma {:induction false} MessagesHold(events: seq<SearchYield>, fs: FS,
                                        parentOf: map<string, string>, tracked: seq<string>)
    requires CandidatesResolve(fs, parentOf, events)
    ensures var m := Messages(events, fs, parentOf, tracked);
      && (forall k :: 0 <= k < |events| && !events[k].Path? ==> events[k] in m)
      && (forall a :: a in FoundArcs(events, fs, parentOf) && a !in tracked ==>
            Info("Found new arc: " + a) in m)
      && (forall y :: y in m ==>
            (exists k :: 0 <= k < |events| && !events[k].Path? && events[k] == y) ||
            (exists a :: a in FoundArcs(events, fs, parentOf) && a !in tracked &&
                         y == Info("Found new arc: " + a)))
  {
    if events != [] {
      var init := events[..|events| - 1];
      MessagesHold(init, fs, parentOf, tracked);
      var ev := events[|events| - 1];
      assert forall k :: 0 <= k < |init| ==> init[k] == events[k];
      var m := Messages(events, fs, parentOf, tracked);
      var fa := FoundArcs(events, fs, parentOf);
      assert forall a :: a in FoundArcs(init, fs, parentOf) ==> a in fa;
      forall y | y in m
        ensures (exists k :: 0 <= k < |events| && !events[k].Path? && events[k] == y) ||
                (exists a :: a in fa && a !in tracked && y == Info("Found new arc: " + a))
      {
        if y in Messages(init, fs, parentOf, tracked) {
          if exists k :: 0 <= k < |init| && !init[k].Path? && init[k] == y {
            var k :| 0 <= k < |init| && !init[k].Path? && init[k] == y;
            assert events[k] == y;
          }
        } else if !ev.Path? {
          assert events[|events| - 1] == y;
        }
      }
    }
  }

  lemma CountPathsSnoc(events: seq<SearchYield>)
    requires events != []
    ensures CountPaths(events) ==
      CountPaths(events[..|events| - 1]) + (if events[|events| - 1].Path? then 1 else 0)
  {
    var last := [events[|events| - 1]];
    assert events == events[..|events| - 1] + last;
    CountPathsAppend(events[..|events| - 1], last);
    assert last[1..] == [];
  }

  lemma FreshSize(s: seq<string>, xs: seq<string>)
    ensures |Fresh(s, xs)| <= |xs|
  {
  }

  /** What the tally holds after a stream: every `path` event counted as a
      candidate; every revealed arc counted as found and listed in
      `new_arcs`, whether tracked or not; the untracked ones counted as new;
      the stream's messages appended to the message list, one per info or
      error event and per new arc; one update sent per info or error event
      and per found arc, none for a candidate that reveals nothing. */
  lemma TalliedSummary(t0: Tally, events: seq<SearchYield>, fs: FS,
                       parentOf: map<string, string>, tracked: seq<string>)
    requires CandidatesResolve(fs, parentOf, events)
    ensures var (t, sent) := Tallied(t0, events, fs, parentOf, tracked);
      && t.platform == t0.platform
      && t.arcCandidates == t0.arcCandidates + CountPaths(events)
      && t.newArcs == t0.newArcs + FoundArcs(events, fs, parentOf)
      && t.arcFound == t0.arcFound + |FoundArcs(events, fs, parentOf)|
      && t.arcNew == t0.arcNew + |Fresh(tracked, FoundArcs(events, fs, parentOf))|
      && |t.infos| == |t0.infos| + CountMessages(events) + |Fresh(tracked, FoundArcs(events, fs, parentOf))|
      && t0.infos <= t.infos
      && t.infos == t0.infos + Messages(events, fs, parentOf, tracked)
      && |sent| == CountMessages(events) + |FoundArcs(events, fs, parentOf)|
  {
    TalliedCounts(t0, events, fs, parentOf, tracked);
    TalliedInfos(t0, events, fs, parentOf, tracked);
    MessagesSize(events, fs, parentOf, tracked);
  }

  lemma {:induction false} TalliedCounts(t0: Tally, events: seq<SearchYield>, fs: FS,
                                         parentOf: map<string, string>, tracked: seq<string>)
    requires CandidatesResolve(fs, parentOf, events)
    ensures var (t, sent) := Tallied(t0, events, fs, parentOf, tracked);
      && t.platform == t0.platform
      && t.arcCandidates == t0.arcCandidates + CountPaths(events)
      && t.newArcs == t0.newArcs + FoundArcs(events, fs, parentOf)
      && t.arcFound == t0.arcFound + |FoundArcs(events, fs, parentOf)|
      && t.arcNew == t0.arcNew + |Fresh(tracked, FoundArcs(events, fs, parentOf))|
      && |sent| == CountMessages(events) + |FoundArcs(events, fs, parentOf)|
  {
    if events != [] {
      var init := events[..|events| - 1];
      TalliedCounts(t0, init, fs, parentOf, tracked);
      CountPathsSnoc(events);
      var prev := Tallied(t0, init, fs, parentOf, tracked);
      var found := FoundArcs(init, fs, parentOf);
      assert prev.0.newArcs == t0.newArcs + found;
      var ev := events[|events| - 1];
      if ev.Path? && FoundArc(fs, parentOf, ev.data).Some? {
        var parent := FoundArc(fs, parentOf, ev.data).value;
        assert FoundArcs(events, fs, parentOf) == found + [parent];
        FreshSnoc(tracked, found, parent);
        assert t0.newArcs + found + [parent] == t0.newArcs + (found + [parent]);
      }
    }
  }

  lemma {:induction false} TalliedInfos(t0: Tally, events: seq<SearchYield>, fs: FS,
                                        parentOf: map<string, string>, tracked: seq<string>)
    requires CandidatesResolve(fs, parentOf, events)
    ensures Tallied(t0, events, fs, parentOf, tracked).0.infos ==
              t0.infos + Messages(events, fs, parentOf, tracked)
  {
    if events != [] {
      var init := events[..|events| - 1];
      TalliedInfos(t0, init, fs, parentOf, tracked);
      var msgs := Messages(init, fs, parentOf, tracked);
      var ev := events[|events| - 1];
      if ev.Path? {
        if FoundArc(fs, parentOf, ev.data).Some? && FoundArc(fs, parentOf, ev.data).value !in tracked {
          var info := Info("Found new arc: " + FoundArc(fs, parentOf, ev.data).value);
          assert t0.infos + msgs + [info] == t0.infos + (msgs + [info]);
        }
      } else {
        assert t0.infos + msgs + [ev] == t0.infos + (msgs + [ev]);
      }
    }
  }

  lemma FreshSnoc(tracked: seq<string>, found: seq<string>, parent: string)
    ensures Fresh(tracked, found + [parent]) ==
      if parent in tracked then Fresh(tracked, found) else Fresh(tracked, found) + [parent]
  {
    assert (found + [parent])[..|found|] == found;
  }

  /** One message per info or error event and per revealed arc that is not
      tracked. */
  lemma {:induction false} MessagesSize(events: seq<SearchYield>, fs: FS,
                                        parentOf: map<string, string>, tracked: seq<string>)
    requires CandidatesResolve(fs, parentOf, events)
    ensures |Messages(events, fs, parentOf, tracked)| ==
              CountMessages(events) + |Fresh(tracked, FoundArcs(events, fs, parentOf))|
  {
    if events != [] {
      var init := events[..|events| - 1];
      MessagesSize(init, fs, parentOf, tracked);
      var ev := events[|events| - 1];
      if ev.Path? && FoundArc(fs, parentOf, ev.data).Some? {
        FreshSnoc(tracked, FoundArcs(init, fs, parentOf), FoundArc(fs, parentOf, ev.data).value);
      }
    }
  }

  /** Hence the counters are ordered at every point of a scan started from
      the initial tally. */
  lemma TalliedOrdered(platform: string, events: seq<SearchYield>, fs: FS,
                       parentOf: map<string, string>, tracked: seq<string>)
    requires CandidatesResolve(fs, parentOf, events)
    ensures var t := Tallied(Initial(platform), events, fs, parentOf, tracked).0;
      && t.arcNew <= t.arcFound <= t.arcCandidates
      && |t.newArcs| == t.arcFound
  {
    TalliedSummary(Initial(platform), events, fs, parentOf, tracked);
    FoundArcsBound(events, fs, parentOf);
    FreshSize(tracked, FoundArcs(events, fs, parentOf));
  }

  /** A stream reveals at most one arc per candidate. */
  lemma {:induction false} FoundArcsBound(events: seq<SearchYield>, fs: FS, parentOf: map<string, string>)
    requires CandidatesResolve(fs, parentOf, events)
    ensures |FoundArcs(events, fs, parentOf)| <= CountPaths(events)
  {
    if events != [] {
      FoundArcsBound(events[..|events| - 1], fs, parentOf);
      CountPathsSnoc(events);
    }
  }

  /** `a` is an earlier snapshot of the same tally than `b`: no counter
      went down and both lists only grew at their ends. */
  predicate Precedes(a: Tally, b: Tally) {
    && a.platform == b.platform
    && a.arcCandidates <= b.arcCandidates
    && a.arcFound <= b.arcFound
    && a.arcNew <= b.arcNew
    && a.infos <= b.infos
    && a.newArcs <= b.newArcs
  }

  /** The snapshots a scan sends only move forward, and the final tally
      comes after all of them. */
  lemma {:induction false} TalliedMonotone(t0: Tally, events: seq<SearchYield>, fs: FS,
                                           parentOf: map<string, string>, tracked: seq<string>)
    requires CandidatesResolve(fs, parentOf, events)
    ensures var (t, sent) := Tallied(t0, events, fs, parentOf, tracked);
      && Precedes(t0, t)
      && (forall k :: 0 <= k < |sent| ==> Precedes(t0, sent[k].tally) && Precedes(sent[k].tally, t))
      && (forall j, k :: 0 <= j < k < |sent| ==> Precedes(sent[j].tally, sent[k].tally))
  {
    if events != [] {
      var init := events[..|events| - 1];
      TalliedMonotone(t0, init, fs, parentOf, tracked);
      var prev := Tallied(t0, init, fs, parentOf, tracked);
      var next := Step(prev.0, events[|events| - 1], fs, parentOf, tracked);
      assert Precedes(prev.0, next.0);
      assert forall k :: 0 <= k < |next.1| ==> next.1[k].tally == next.0;
      var sent := prev.1 + next.1;
      forall j, k | 0 <= j < k < |sent|
        ensures Precedes(sent[j].tally, sent[k].tally)
      {
        if k >= |prev.1| {
          assert sent[k].tally == next.0;
          if j < |prev.1| {
            assert Precedes(sent[j].tally, prev.0);
          }
        }
      }
    }
  }
}
