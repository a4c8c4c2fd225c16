/**
 * What a whole run of `get_commits_detail_array` (src/main.rs:87-109) guarantees:
 * windows matter only for when a lookup failure is noticed, walk errors are
 * skipped, an unresolvable id aborts, an aborted run leaves a committed prefix of
 * the records, and a rerun over the same history fails on its first record.
 */
module IngestFacts {
  import opened Wrappers
  import opened Commits
  import opened Storage
  import opened PersistFacts
  import opened Ingest

  /** The ids the walk yielded, in walk order, without its errors. */
  function ResolvedIds(es: seq<WalkEntry>): seq<CommitId>
    decreases |es|
  {
    if es == [] then []
    else
      var last := es[|es| - 1];
      ResolvedIds(es[..|es| - 1]) + (if last.Resolved? then [last.id] else [])
  }

  /** `find_commit` hands back the commit with the id it was asked for. */
  ghost predicate Consistent(lookup: Lookup) {
    forall id :: id in lookup ==> lookup[id].id == id
  }

  // ---------------------------------------------------------------------------
  // Extraction over a walk

  /**
   * Gathering fails exactly when some id of the walk cannot be looked up, and then
   * names such an id; otherwise it yields one record per resolved id, in walk order,
   * each the extraction of that id's commit. Walk errors yield nothing.
   */
  lemma {:induction false} GatherSpec(es: seq<WalkEntry>, lookup: Lookup)
    ensures var g := Gather(es, lookup);
      && (g.failure.None? <==> forall id :: id in ResolvedIds(es) ==> id in lookup)
      && (g.failure.Some? ==>
            g.failure.value.LookupFailed? && g.failure.value.id in ResolvedIds(es) && g.failure.value.id !in lookup)
      && (g.failure.None? ==>
            |g.records| == |ResolvedIds(es)| &&
            forall i :: 0 <= i < |g.records| ==> g.records[i] == ExtractCommitDetails(lookup[ResolvedIds(es)[i]]))
    decreases |es|
  {
    if es != [] {
      var init := es[..|es| - 1];
      GatherSpec(init, lookup);
    }
  }

  /** With a consistent lookup, a complete gather yields records whose ids are the walk's ids. */
  lemma GatheredIds(es: seq<WalkEntry>, lookup: Lookup)
    requires Consistent(lookup)
    requires Gather(es, lookup).failure.None?
    ensures Ids(Gather(es, lookup).records) == ResolvedIds(es)
  {
    GatherSpec(es, lookup);
  }

  /** Gathering a concatenation gathers the first part, then (if it did not fail) the second. */
  lemma {:induction false} GatherAppend(a: seq<WalkEntry>, b: seq<WalkEntry>, lookup: Lookup)
    ensures Gather(a + b, lookup) ==
      var ga := Gather(a, lookup);
      if ga.failure.Some? then ga
      else
        var gb := Gather(b, lookup);
        Gathered(ga.records + gb.records, gb.failure)
    decreases |b|
  {
    if b == [] {
      assert a + b == a;
    } else {
      var b' := b[..|b| - 1];
      GatherAppend(a, b', lookup);
      assert (a + b)[..|a + b| - 1] == a + b';
      assert (a + b)[|a + b| - 1] == b[|b| - 1];
    }
  }

  // ---------------------------------------------------------------------------
  // Sequencing of the declarative persistence functions

  lemma {:induction false} PersistAllAppend(st: Snapshot, a: seq<CommitDetails>, b: seq<CommitDetails>)
    ensures PersistAll(st, a + b) ==
      var o := PersistAll(st, a);
      if o.failure.Some? then o else PersistAll(o.state, b)
    decreases |a|
  {
    if a == [] {
      assert a + b == b;
    } else {
      assert (a + b)[0] == a[0] && (a + b)[1..] == a[1..] + b;
      match PersistOne(st, a[0])
      case Err(_) =>
      case Ok(next) => PersistAllAppend(next, a[1..], b);
    }
  }

  lemma {:induction false} ApplyAllAppend(st: Snapshot, a: seq<CommitDetails>, b: seq<CommitDetails>)
    ensures ApplyAll(st, a + b) == ApplyAll(ApplyAll(st, a), b)
    decreases |a|
  {
    if a == [] {
      assert a + b == b;
    } else {
      assert (a + b)[0] == a[0] && (a + b)[1..] == a[1..] + b;
      ApplyAllAppend(Apply(st, a[0]), a[1..], b);
    }
  }

  lemma {:induction false} PersistedCountAppend(st: Snapshot, a: seq<CommitDetails>, b: seq<CommitDetails>)
    ensures PersistedCount(st, a + b) ==
      if PersistedCount(st, a) < |a| then PersistedCount(st, a)
      else |a| + PersistedCount(ApplyAll(st, a), b)
    decreases |a|
  {
    if a == [] {
      assert a + b == b;
    } else {
      assert (a + b)[0] == a[0] && (a + b)[1..] == a[1..] + b;
      if CanPersist(st, a[0]) {
        PersistedCountAppend(Apply(st, a[0]), a[1..], b);
      }
    }
  }

  // ---------------------------------------------------------------------------
  // Whole runs

  /**
   * When every id of the walk resolves, windowing is invisible: the run persists
   * the walk's records exactly as one call of the persister over all of them would.
   */
  lemma {:induction false} RunWindowsResolved(st: Snapshot, ws: seq<seq<WalkEntry>>, lookup: Lookup)
    requires Gather(Flatten(ws), lookup).failure.None?
    ensures RunWindows(st, ws, lookup) == PersistAll(st, Gather(Flatten(ws), lookup).records)
    decreases |ws|
  {
    if ws != [] {
      GatherAppend(ws[0], Flatten(ws[1..]), lookup);
      var g0 := Gather(ws[0], lookup);
      var rest := Gather(Flatten(ws[1..]), lookup);
      PersistAllAppend(st, g0.records, rest.records);
      var o := PersistAll(st, g0.records);
      if o.failure.None? {
        RunWindowsResolved(o.state, ws[1..], lookup);
      }
    }
  }

  lemma RunResolved(st: Snapshot, walk: seq<WalkEntry>, lookup: Lookup)
    requires Gather(walk, lookup).failure.None?
    ensures Run(st, walk, lookup) == PersistAll(st, Gather(walk, lookup).records)
  {
    RunWindowsResolved(st, Chunks(walk, WindowSize), lookup);
  }

  /** A flattened list of windows is its first window followed by the rest. */
  lemma FlattenCons<T>(ws: seq<seq<T>>)
    requires ws != []
    ensures Flatten(ws) == ws[0] + Flatten(ws[1..])
  {
  }

  /** Gathering can only fail on a lookup. */
  lemma {:induction false} GatherFailsOnLookup(es: seq<WalkEntry>, lookup: Lookup)
    ensures Gather(es, lookup).failure.Some? ==> Gather(es, lookup).failure.value.LookupFailed?
    decreases |es|
  {
    if es != [] {
      GatherFailsOnLookup(es[..|es| - 1], lookup);
    }
  }

  /** The persister can only fail on an insert. */
  lemma PersistAllFailsOnInsert(st: Snapshot, recs: seq<CommitDetails>)
    ensures PersistAll(st, recs).failure.Some? ==> !PersistAll(st, recs).failure.value.LookupFailed?
  {
    PersistAllIsPrefix(st, recs);
    var k := PersistedCount(st, recs);
    if k < |recs| {
      PersistOneSpec(PersistAll(st, recs).state, recs[k]);
    }
  }

  /** Record k of a + b is the first that cannot be committed, o is left with records 0..k-1, and o's failure is record k's. */
  ghost predicate StoppedAtRecord(st: Snapshot, recs: seq<CommitDetails>, o: Outcome)
  {
    var k := PersistedCount(st, recs);
    && o.failure.Some?
    && k < |recs|
    && o.state == ApplyAll(st, recs[..k])
    && PersistOne(o.state, recs[k]) == Err(o.failure.value)
  }

  /** A rejected insert in the first part of a + b is a rejected insert at the same place in a + b. */
  lemma StoppedInFirstPart(st: Snapshot, a: seq<CommitDetails>, b: seq<CommitDetails>)
    requires PersistAll(st, a).failure.Some?
    ensures StoppedAtRecord(st, a + b, PersistAll(st, a))
  {
    PersistAllIsPrefix(st, a);
    PersistedCountAppend(st, a, b);
    var c := PersistedCount(st, a);
    assert (a + b)[..c] == a[..c];
    assert (a + b)[c] == a[c];
  }

  /** After a fully committed first part, a rejected insert in b at k' is one in a + b at |a| + k'. */
  lemma StoppedInSecondPart(st: Snapshot, a: seq<CommitDetails>, b: seq<CommitDetails>, o: Outcome)
    requires PersistAll(st, a).failure.None?
    requires StoppedAtRecord(PersistAll(st, a).state, b, o)
    ensures StoppedAtRecord(st, a + b, o)
  {
    PersistAllIsPrefix(st, a);
    PersistedCountAppend(st, a, b);
    assert a[..|a|] == a;
    var k' := PersistedCount(ApplyAll(st, a), b);
    assert (a + b)[..|a| + k'] == a + b[..k'];
    assert (a + b)[|a| + k'] == b[k'];
    ApplyAllAppend(st, a, b[..k']);
  }

  /**
   * A windowed run that stops on a rejected insert (not a lookup) stops at record k,
   * the first of the gathered records that cannot be committed: the database holds
   * exactly records 0..k-1, earlier records of the same window included, and the
   * failure is record k's. Ids left unresolvable in later windows make no difference.
   */
  lemma {:induction false} RunWindowsPersistFailure(st: Snapshot, ws: seq<seq<WalkEntry>>, lookup: Lookup)
    requires RunWindows(st, ws, lookup).failure.Some?
    requires !RunWindows(st, ws, lookup).failure.value.LookupFailed?
    ensures StoppedAtRecord(st, Gather(Flatten(ws), lookup).records, RunWindows(st, ws, lookup))
    decreases |ws|
  {
    var o := RunWindows(st, ws, lookup);
    var g0 := Gather(ws[0], lookup);
    GatherFailsOnLookup(ws[0], lookup);
    assert g0.failure.None?;
    FlattenCons(ws);
    GatherAppend(ws[0], Flatten(ws[1..]), lookup);
    var rest := Gather(Flatten(ws[1..]), lookup).records;
    assert Gather(Flatten(ws), lookup).records == g0.records + rest;
    var p := PersistAll(st, g0.records);
    if p.failure.Some? {
      assert o == p;
      StoppedInFirstPart(st, g0.records, rest);
    } else {
      assert o == RunWindows(p.state, ws[1..], lookup);
      RunWindowsPersistFailure(p.state, ws[1..], lookup);
      StoppedInSecondPart(st, g0.records, rest, o);
    }
  }

  /** The windows before w resolved and were committed in full, and they are all the database gained. */
  ghost predicate StoppedInWindow(st: Snapshot, ws: seq<seq<WalkEntry>>, lookup: Lookup, o: Outcome, w: nat)
  {
    && w < |ws|
    && var before := Gather(Flatten(ws[..w]), lookup);
    && before.failure.None?
    && Gather(ws[w], lookup).failure == o.failure
    && PersistedCount(st, before.records) == |before.records|
    && o.state == ApplyAll(st, before.records)
  }

  /**
   * A windowed run that stops on an id it cannot look up stops in some window w: the
   * windows before w resolved and were committed in full, the database holds
   * exactly their records, and none of window w's records (nor later ones) was
   * persisted. The failure is the walk's first unresolvable id.
   */
  lemma {:induction false} RunWindowsLookupFailure(st: Snapshot, ws: seq<seq<WalkEntry>>, lookup: Lookup)
    requires RunWindows(st, ws, lookup).failure.Some?
    requires RunWindows(st, ws, lookup).failure.value.LookupFailed?
    ensures RunWindows(st, ws, lookup).failure == Gather(Flatten(ws), lookup).failure
    ensures exists w :: StoppedInWindow(st, ws, lookup, RunWindows(st, ws, lookup), w)
    decreases |ws|
  {
    var o := RunWindows(st, ws, lookup);
    FlattenCons(ws);
    GatherAppend(ws[0], Flatten(ws[1..]), lookup);
    var g0 := Gather(ws[0], lookup);
    if g0.failure.Some? {
      assert o == Outcome(st, g0.failure);
      assert ws[..0] == [];
      assert StoppedInWindow(st, ws, lookup, o, 0);
    } else {
      var p := PersistAll(st, g0.records);
      PersistAllFailsOnInsert(st, g0.records);
      assert p.failure.None?;
      PersistAllIsPrefix(st, g0.records);
      assert g0.records[..|g0.records|] == g0.records;
      assert o == RunWindows(p.state, ws[1..], lookup);
      RunWindowsLookupFailure(p.state, ws[1..], lookup);
      var w': nat :| StoppedInWindow(p.state, ws[1..], lookup, o, w');
      var tail := Flatten(ws[1..][..w']);
      assert ws[..w' + 1] == [ws[0]] + ws[1..][..w'];
      FlattenCons(ws[..w' + 1]);
      assert ws[..w' + 1][1..] == ws[1..][..w'];
      GatherAppend(ws[0], tail, lookup);
      var before := Gather(tail, lookup).records;
      PersistedCountAppend(st, g0.records, before);
      ApplyAllAppend(st, g0.records, before);
      assert ws[1..][w'] == ws[w' + 1];
      assert StoppedInWindow(st, ws, lookup, o, w' + 1);
    }
  }

  /**
   * Prefix property, for a run stopped by a rejected insert: with k the first
   * gathered record that cannot be committed, every record before it was committed,
   * the database holds exactly records 0..k-1, and the failure is record k's.
   */
  lemma AbortedRunKeepsEarlierRecords(st: Snapshot, walk: seq<WalkEntry>, lookup: Lookup)
    requires Run(st, walk, lookup).failure.Some? && !Run(st, walk, lookup).failure.value.LookupFailed?
    ensures var recs := Gather(walk, lookup).records;
      var k := PersistedCount(st, recs);
      var o := Run(st, walk, lookup);
      && k < |recs|
      && (forall i :: 0 <= i < k ==> CanPersist(ApplyAll(st, recs[..i]), recs[i]))
      && o.state == ApplyAll(st, recs[..k])
      && PersistOne(o.state, recs[k]) == Err(o.failure.value)
  {
    RunWindowsPersistFailure(st, Chunks(walk, WindowSize), lookup);
    PersistedCountIsFirstFailure(st, Gather(walk, lookup).records);
  }

  /**
   * A windowed run succeeds exactly when every id resolved and every gathered record
   * could be committed in turn, and it then holds exactly all of them.
   */
  lemma {:induction false} RunWindowsSuccess(st: Snapshot, ws: seq<seq<WalkEntry>>, lookup: Lookup)
    ensures var g := Gather(Flatten(ws), lookup);
      RunWindows(st, ws, lookup).failure.None? <==> g.failure.None? && PersistedCount(st, g.records) == |g.records|
    ensures var g := Gather(Flatten(ws), lookup);
      RunWindows(st, ws, lookup).failure.None? ==> RunWindows(st, ws, lookup).state == ApplyAll(st, g.records)
    decreases |ws|
  {
    var g := Gather(Flatten(ws), lookup);
    var o := RunWindows(st, ws, lookup);
    if g.failure.None? {
      RunWindowsResolved(st, ws, lookup);
      PersistAllIsPrefix(st, g.records);
      assert g.records[..|g.records|] == g.records;
    }
    if o.failure.None? && ws != [] {
      FlattenCons(ws);
      GatherAppend(ws[0], Flatten(ws[1..]), lookup);
      var g0 := Gather(ws[0], lookup);
      assert g0.failure.None?;
      var p := PersistAll(st, g0.records);
      assert p.failure.None?;
      RunWindowsSuccess(p.state, ws[1..], lookup);
    }
  }

  /**
   * The prefix property of a whole run, for each way it can end. It succeeds exactly
   * when every id resolved and every record was committed, and then holds them all.
   * A run stopped by a rejected insert holds exactly the records before the first
   * record that could not be committed. A run stopped by an unresolvable id holds
   * exactly the records of the windows before the one holding that id.
   */
  lemma RunIsPrefix(st: Snapshot, walk: seq<WalkEntry>, lookup: Lookup)
    ensures var g := Gather(walk, lookup);
      Run(st, walk, lookup).failure.None? <==> g.failure.None? && PersistedCount(st, g.records) == |g.records|
    ensures Run(st, walk, lookup).failure.None? ==>
      Run(st, walk, lookup).state == ApplyAll(st, Gather(walk, lookup).records)
    ensures Run(st, walk, lookup).failure.Some? && !Run(st, walk, lookup).failure.value.LookupFailed? ==>
      StoppedAtRecord(st, Gather(walk, lookup).records, Run(st, walk, lookup))
    ensures Run(st, walk, lookup).failure.Some? && Run(st, walk, lookup).failure.value.LookupFailed? ==>
      && Run(st, walk, lookup).failure == Gather(walk, lookup).failure
      && exists w :: StoppedInWindow(st, Chunks(walk, WindowSize), lookup, Run(st, walk, lookup), w)
  {
    var ws := Chunks(walk, WindowSize);
    var o := RunWindows(st, ws, lookup);
    RunWindowsSuccess(st, ws, lookup);
    if o.failure.Some? {
      if o.failure.value.LookupFailed? {
        RunWindowsLookupFailure(st, ws, lookup);
      } else {
        RunWindowsPersistFailure(st, ws, lookup);
      }
    }
  }

  /** A resolved id that the repository cannot look up aborts the run. */
  lemma UnresolvableIdAborts(st: Snapshot, walk: seq<WalkEntry>, lookup: Lookup, i: nat)
    requires i < |walk| && walk[i].Resolved? && walk[i].id !in lookup
    ensures Run(st, walk, lookup).failure.Some?
  {
    ResolvedIdsContains(walk, i);
    GatherSpec(walk, lookup);
    RunIsPrefix(st, walk, lookup);
  }

  lemma {:induction false} ResolvedIdsContains(es: seq<WalkEntry>, i: nat)
    requires i < |es| && es[i].Resolved?
    ensures es[i].id in ResolvedIds(es)
    decreases |es|
  {
    var init := es[..|es| - 1];
    if i < |es| - 1 {
      ResolvedIdsContains(init, i);
    }
  }

  /**
   * A successful run on a store whose two tables exist and are empty leaves
   * `commit_details` keyed by exactly the records' ids (all distinct), each row
   * holding its record's fields, and one `commit_relation` row per parent.
   */
  lemma SuccessfulRunOnEmptyTables(walk: seq<WalkEntry>, lookup: Lookup, tables: set<Table>)
    requires CommitDetailsTable in tables && CommitRelationTable in tables
    requires Run(Snapshot(tables, map[], {}), walk, lookup).failure.None?
    ensures var recs := Gather(walk, lookup).records;
      var s := Run(Snapshot(tables, map[], {}), walk, lookup).state;
      && NoDuplicates(Ids(recs))
      && (forall id :: id in s.details <==> id in Ids(recs))
      && (forall i :: 0 <= i < |recs| ==> s.details[recs[i].id] == RowOf(recs[i]))
      && |s.relation| == ParentCount(recs)
  {
    var st := Snapshot(tables, map[], {});
    var recs := Gather(walk, lookup).records;
    RunIsPrefix(st, walk, lookup);
    RunResolved(st, walk, lookup);
    PersistAllIsPrefix(st, recs);
    assert recs[..|recs|] == recs;
    ApplyAllContents(st, recs);
  }

  /**
   * With a consistent repository, the ids in `commit_details` after such a run are
   * exactly the ids the walk yielded.
   */
  lemma SuccessfulRunStoresWalkIds(walk: seq<WalkEntry>, lookup: Lookup, tables: set<Table>)
    requires Consistent(lookup)
    requires CommitDetailsTable in tables && CommitRelationTable in tables
    requires Run(Snapshot(tables, map[], {}), walk, lookup).failure.None?
    ensures forall id :: id in Run(Snapshot(tables, map[], {}), walk, lookup).state.details <==> id in ResolvedIds(walk)
  {
    RunIsPrefix(Snapshot(tables, map[], {}), walk, lookup);
    GatheredIds(walk, lookup);
    SuccessfulRunOnEmptyTables(walk, lookup, tables);
  }

  /**
   * Rerunning over the same history fails on the first record with a primary-key
   * violation on `commit_details`, and changes nothing.
   */
  lemma RerunFailsOnFirstRecord(st: Snapshot, walk: seq<WalkEntry>, lookup: Lookup)
    requires Run(st, walk, lookup).failure.None?
    requires Gather(walk, lookup).records != []
    ensures var s := Run(st, walk, lookup).state;
      Run(s, walk, lookup) == Outcome(s, Some(DetailsInsertFailed(Gather(walk, lookup).records[0].id)))
  {
    var recs := Gather(walk, lookup).records;
    RunIsPrefix(st, walk, lookup);
    RunResolved(st, walk, lookup);
    PersistAllIsPrefix(st, recs);
    assert recs[..|recs|] == recs;
    ApplyAllContents(st, recs);
    var s := Run(st, walk, lookup).state;
    assert recs[0].id in Ids(recs);
    RunResolved(s, walk, lookup);
  }
}
