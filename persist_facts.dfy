/**
 * What `batch_insert_commits` (src/main.rs:127-150) guarantees: each record's
 * transaction is all-or-nothing, and a call that stops early leaves exactly the
 * records before the failing one persisted.
 */
module PersistFacts {
  import opened Wrappers
  import opened Commits
  import opened Storage

  /** The ids of the records, in order. */
  function Ids(recs: seq<CommitDetails>): (ids: seq<CommitId>)
    ensures |ids| == |recs| && forall i :: 0 <= i < |recs| ==> ids[i] == recs[i].id
  {
    if recs == [] then [] else [recs[0].id] + Ids(recs[1..])
  }

  /** The total number of parents over the records: the relation rows they should produce. */
  function ParentCount(recs: seq<CommitDetails>): nat {
    if recs == [] then 0 else |recs[0].parents| + ParentCount(recs[1..])
  }

  lemma NoDuplicatesCons<T>(x: T, s: seq<T>)
    ensures NoDuplicates([x] + s) <==> x !in s && NoDuplicates(s)
  {
    var t := [x] + s;
    if x !in s && NoDuplicates(s) {
      forall i, j | 0 <= i < j < |t| ensures t[i] != t[j] {
        if i > 0 {
          assert t[i] == s[i - 1] && t[j] == s[j - 1];
        } else {
          assert t[j] == s[j - 1];
        }
      }
    }
    if NoDuplicates(t) {
      forall i, j | 0 <= i < j < |s| ensures s[i] != s[j] {
        assert s[i] == t[i + 1] && s[j] == t[j + 1];
      }
      forall k | 0 <= k < |s| ensures s[k] != x {
        assert s[k] == t[k + 1] && x == t[0];
      }
    }
  }

  /** Distinct parents give distinct edges: one relation key per parent. */
  lemma {:induction false} EdgesOfCount(ps: seq<CommitId>, child: CommitId)
    requires NoDuplicates(ps)
    ensures |EdgesOf(ps, child)| == |ps|
  {
    if ps != [] {
      assert ps == [ps[0]] + ps[1..];
      NoDuplicatesCons(ps[0], ps[1..]);
      EdgesOfCount(ps[1..], child);
      assert Edge(ps[0], child) !in EdgesOf(ps[1..], child);
    }
  }

  /**
   * The parent loop succeeds exactly when the relation table exists (or there is
   * nothing to insert), the parents are distinct and none of their edges is present;
   * it then adds exactly those edges, and otherwise reports one of them.
   */
  lemma {:induction false} InsertEdgesSpec(st: Snapshot, ps: seq<CommitId>, child: CommitId)
    ensures InsertEdges(st, ps, child).Ok? <==>
      && (ps != [] ==> CommitRelationTable in st.tables)
      && NoDuplicates(ps)
      && forall p :: p in ps ==> Edge(p, child) !in st.relation
    ensures InsertEdges(st, ps, child).Ok? ==>
      InsertEdges(st, ps, child).value == st.(relation := st.relation + EdgesOf(ps, child))
    ensures InsertEdges(st, ps, child).Err? ==>
      var f := InsertEdges(st, ps, child).error;
      f.RelationInsertFailed? && f.child == child && f.parent in ps
    decreases |ps|
  {
    if ps != [] {
      var e := Edge(ps[0], child);
      assert ps == [ps[0]] + ps[1..];
      NoDuplicatesCons(ps[0], ps[1..]);
      match InsertRelationRow(st, e)
      case Err(_) =>
      case Ok(next) =>
        InsertEdgesSpec(next, ps[1..], child);
        assert EdgesOf(ps, child) == {e} + EdgesOf(ps[1..], child);
    }
  }

  /**
   * Per-record atomicity: a record's transaction commits exactly when CanPersist
   * holds, and then adds precisely Apply's row and edges; otherwise it reports the
   * commit row when that insert fails and one of the record's edges when a relation
   * insert fails, and (PersistOne returning no state) nothing changes.
   */
  lemma PersistOneSpec(st: Snapshot, r: CommitDetails)
    ensures PersistOne(st, r).Ok? <==> CanPersist(st, r)
    ensures PersistOne(st, r).Ok? ==> PersistOne(st, r).value == Apply(st, r)
    ensures PersistOne(st, r).Err? ==>
      var f := PersistOne(st, r).error;
      if CommitDetailsTable in st.tables && r.id !in st.details
      then f.RelationInsertFailed? && f.child == r.id && f.parent in r.parents
      else f == DetailsInsertFailed(r.id)
  {
    if CommitDetailsTable in st.tables && r.id !in st.details {
      InsertEdgesSpec(st.(details := st.details[r.id := RowOf(r)]), r.parents, r.id);
    }
  }

  /** A committed record's commit row: one new key, its id, holding its fields; other rows unchanged. */
  lemma ApplyAddsOneRow(st: Snapshot, r: CommitDetails)
    requires r.id !in st.details
    ensures r.id in Apply(st, r).details && Apply(st, r).details[r.id] == RowOf(r)
    ensures |Apply(st, r).details| == |st.details| + 1
    ensures forall id :: id in st.details ==> id in Apply(st, r).details && Apply(st, r).details[id] == st.details[id]
  {
    assert Apply(st, r).details.Keys == st.details.Keys + {r.id};
  }

  /** A committed record's edges: one new (p, id) per parent and nothing else. */
  lemma ApplyAddsOneEdgePerParent(st: Snapshot, r: CommitDetails)
    requires NoDuplicates(r.parents)
    requires forall p :: p in r.parents ==> Edge(p, r.id) !in st.relation
    ensures |Apply(st, r).relation| == |st.relation| + |r.parents|
    ensures forall e :: e in Apply(st, r).relation <==> e in st.relation || (e.child == r.id && e.parent in r.parents)
  {
    EdgesOfCount(r.parents, r.id);
    assert st.relation !! EdgesOf(r.parents, r.id);
  }

  /**
   * A committed record adds one `commit_details` row, keyed by its id, and one
   * `commit_relation` row per parent, each pointing at it; nothing else changes.
   */
  lemma ApplyAddsOneRowAndOneEdgePerParent(st: Snapshot, r: CommitDetails)
    requires CanPersist(st, r)
    ensures Apply(st, r).tables == st.tables
    ensures r.id !in st.details && r.id in Apply(st, r).details && Apply(st, r).details[r.id] == RowOf(r)
    ensures |Apply(st, r).details| == |st.details| + 1
    ensures forall id :: id in st.details ==> id in Apply(st, r).details && Apply(st, r).details[id] == st.details[id]
    ensures |Apply(st, r).relation| == |st.relation| + |r.parents|
    ensures forall e :: e in Apply(st, r).relation <==> e in st.relation || (e.child == r.id && e.parent in r.parents)
  {
    ApplyAddsOneRow(st, r);
    ApplyAddsOneEdgePerParent(st, r);
  }

  /**
   * The prefix property of `batch_insert_commits`: with k the number of leading
   * records that can be committed in turn, the call ends with exactly the first k
   * records persisted, succeeds iff k is all of them, and otherwise reports the
   * failure of record k's transaction.
   */
  lemma {:induction false} PersistAllIsPrefix(st: Snapshot, recs: seq<CommitDetails>)
    ensures var k := PersistedCount(st, recs);
      var o := PersistAll(st, recs);
      && o.state == ApplyAll(st, recs[..k])
      && (o.failure.None? <==> k == |recs|)
      && (k < |recs| ==> PersistOne(o.state, recs[k]).Err? && o.failure == Some(PersistOne(o.state, recs[k]).error))
    decreases |recs|
  {
    if recs != [] {
      PersistOneSpec(st, recs[0]);
      if CanPersist(st, recs[0]) {
        var next := Apply(st, recs[0]);
        var k := PersistedCount(st, recs);
        PersistAllIsPrefix(next, recs[1..]);
        assert recs[..k][1..] == recs[1..][..k - 1];
        if k < |recs| {
          assert recs[1..][k - 1] == recs[k];
        }
      } else {
        assert recs[..0] == [];
      }
    }
  }

  /**
   * PersistedCount means what its name says: every record before position k could
   * be committed on the state its predecessors left, and record k could not.
   */
  lemma {:induction false} PersistedCountIsFirstFailure(st: Snapshot, recs: seq<CommitDetails>)
    ensures var k := PersistedCount(st, recs);
      && (forall i :: 0 <= i < k ==> CanPersist(ApplyAll(st, recs[..i]), recs[i]))
      && (k < |recs| ==> !CanPersist(ApplyAll(st, recs[..k]), recs[k]))
    decreases |recs|
  {
    if recs != [] && CanPersist(st, recs[0]) {
      var next := Apply(st, recs[0]);
      var rest := recs[1..];
      var k := PersistedCount(st, recs);
      PersistedCountIsFirstFailure(next, rest);
      forall i | 1 <= i <= k
        ensures ApplyAll(st, recs[..i]) == ApplyAll(next, rest[..i - 1])
      {
        assert recs[..i][1..] == rest[..i - 1];
      }
      forall i | 0 <= i < k
        ensures CanPersist(ApplyAll(st, recs[..i]), recs[i])
      {
        if i == 0 {
          assert recs[..0] == [];
        } else {
          assert recs[i] == rest[i - 1];
        }
      }
      if k < |recs| {
        assert recs[k] == rest[k - 1];
      }
    }
  }

  /**
   * Committing a whole sequence: the commit rows gained are keyed by exactly the
   * records' ids, which are distinct and were all absent before; earlier rows keep
   * their values; each record's row holds its author, date and message; and the
   * relation gains one row per parent of every record.
   */
  lemma {:induction false} ApplyAllContents(st: Snapshot, recs: seq<CommitDetails>)
    requires PersistedCount(st, recs) == |recs|
    ensures var s := ApplyAll(st, recs);
      && s.tables == st.tables
      && NoDuplicates(Ids(recs))
      && (forall id :: id in Ids(recs) ==> id !in st.details)
      && (forall id :: id in s.details <==> id in st.details || id in Ids(recs))
      && (forall id :: id in st.details ==> s.details[id] == st.details[id])
      && (forall i :: 0 <= i < |recs| ==> s.details[recs[i].id] == RowOf(recs[i]))
      && st.relation <= s.relation
      && |s.relation| == |st.relation| + ParentCount(recs)
    decreases |recs|
  {
    if recs != [] {
      var r := recs[0];
      var rest := recs[1..];
      var next := Apply(st, r);
      var s := ApplyAll(st, recs);
      ApplyAddsOneRowAndOneEdgePerParent(st, r);
      ApplyAllContents(next, rest);
      assert Ids(recs) == [r.id] + Ids(rest);
      NoDuplicatesCons(r.id, Ids(rest));
      forall i | 0 <= i < |recs|
        ensures s.details[recs[i].id] == RowOf(recs[i])
      {
        if i > 0 {
          assert recs[i] == rest[i - 1];
        }
      }
    }
  }
}
