/**
 * The traversal driver `get_commits_detail_array` (src/main.rs:87-109): the walk
 * is materialized, cut into windows of at most 50 entries, each window's resolvable
 * entries are extracted, and each window's records are handed to the persister.
 */
module Ingest {
  import opened Wrappers
  import opened Commits
  import opened Storage

  /** One item of the revision walk: an id, or an error the walk reported instead. */
  datatype WalkEntry = Resolved(id: CommitId) | WalkError(reason: string)

  /** `find_commit`: the commit objects the repository can resolve, by id. */
  type Lookup = map<CommitId, RawCommit>

  const WindowSize: nat := 50

  function Flatten<T>(ws: seq<seq<T>>): seq<T> {
    if ws == [] then [] else ws[0] + Flatten(ws[1..])
  }

  /**
   * `chunks(n)`: consecutive windows of n items, the last one possibly shorter, none
   * empty, and together the input in its original order.
   */
  function Chunks<T>(s: seq<T>, n: nat): (ws: seq<seq<T>>)
    requires n > 0
    ensures Flatten(ws) == s
    ensures forall i :: 0 <= i < |ws| ==> 0 < |ws[i]| <= n
    ensures forall i :: 0 <= i < |ws| - 1 ==> |ws[i]| == n
    decreases |s|
  {
    if |s| <= n then
      (if s == [] then [] else [s])
    else
      var rest := Chunks(s[n..], n);
      assert Flatten([s[..n]] + rest) == s[..n] + Flatten(rest) by {
        assert ([s[..n]] + rest)[1..] == rest;
      }
      [s[..n]] + rest
  }

  /** The records gathered from some walk entries, and the lookup failure that cut them short, if any. */
  datatype Gathered = Gathered(records: seq<CommitDetails>, failure: Option<Failure>)

  /**
   * The inner loop over one window's entries: a walk error is skipped, a resolved
   * id is looked up and extracted, and an id that cannot be looked up stops it.
   */
  function Gather(es: seq<WalkEntry>, lookup: Lookup): Gathered
    decreases |es|
  {
    if es == [] then Gathered([], None)
    else
      var g := Gather(es[..|es| - 1], lookup);
      if g.failure.Some? then g
      else match es[|es| - 1]
        case WalkError(_) => g
        case Resolved(id) =>
          if id in lookup then Gathered(g.records + [ExtractCommitDetails(lookup[id])], None)
          else Gathered(g.records, Some(LookupFailed(id)))
  }

  /** The outer loop: per window, gather its records, then persist them; any failure ends the run. */
  function RunWindows(st: Snapshot, ws: seq<seq<WalkEntry>>, lookup: Lookup): Outcome
    decreases |ws|
  {
    if ws == [] then Outcome(st, None)
    else
      var g := Gather(ws[0], lookup);
      if g.failure.Some? then Outcome(st, g.failure)
      else
        var o := PersistAll(st, g.records);
        if o.failure.Some? then o else RunWindows(o.state, ws[1..], lookup)
  }

  /** A whole run over the materialized walk. */
  function Run(st: Snapshot, walk: seq<WalkEntry>, lookup: Lookup): Outcome {
    RunWindows(st, Chunks(walk, WindowSize), lookup)
  }

  /** Once a prefix of the entries has hit a lookup failure, later entries change nothing. */
  lemma {:induction false} GatherStops(es: seq<WalkEntry>, j: nat, lookup: Lookup)
    requires j <= |es|
    requires Gather(es[..j], lookup).failure.Some?
    ensures Gather(es, lookup) == Gather(es[..j], lookup)
    decreases |es| - j
  {
    if j < |es| {
      assert es[..j + 1][..j] == es[..j];
      GatherStops(es, j + 1, lookup);
    } else {
      assert es[..j] == es;
    }
  }

  /**
   * `get_commits_detail_array`: the run's final database and failure are those of Run.
   * A lookup failure and a persister failure both end it (the `expect` calls).
   */
  method GetCommitsDetailArray(conn: Connection, walk: seq<WalkEntry>, lookup: Lookup)
    returns (failure: Option<Failure>)
    modifies conn
    ensures Outcome(conn.State(), failure) == Run(old(conn.State()), walk, lookup)
  {
    var allCommits := walk;
    var windows := Chunks(allCommits, WindowSize);
    var w := 0;
    while w < |windows|
      invariant 0 <= w <= |windows|
      invariant Run(old(conn.State()), walk, lookup) == RunWindows(conn.State(), windows[w..], lookup)
    {
      var chunk := windows[w];
      assert windows[w..][0] == chunk && windows[w..][1..] == windows[w + 1..];
      var chunkCommits := [];
      var j := 0;
      while j < |chunk|
        invariant 0 <= j <= |chunk|
        invariant Gather(chunk[..j], lookup) == Gathered(chunkCommits, None)
      {
        assert chunk[..j + 1][..j] == chunk[..j];
        match chunk[j] {
          case Resolved(id) =>
            if id !in lookup {
              GatherStops(chunk, j + 1, lookup);
              return Some(LookupFailed(id));
            }
            chunkCommits := chunkCommits + [ExtractCommitDetails(lookup[id])];
          case WalkError(_) =>
            // reported and skipped
        }
        j := j + 1;
      }
      assert chunk[..j] == chunk;
      failure := conn.BatchInsertCommits(chunkCommits);
      if failure.Some? {
        return;
      }
      w := w + 1;
    }
    return None;
  }
}
