/**
 * The relational store: the tables created by `create_database` (src/main.rs:54-85),
 * the two INSERT statements of `batch_insert_commits` with their primary-key
 * semantics, and per-commit transactions (src/main.rs:127-150).
 */
module Storage {
  import opened Wrappers
  import opened Commits

  datatype Table = CommitDetailsTable | CommitRelationTable | RefDetailsTable

  /** The non-key columns of a `commit_details` row. */
  datatype Row = Row(author: string, date: int, message: string)

  /** A `commit_relation` row; the whole pair is the primary key. */
  datatype Edge = Edge(parent: CommitId, child: CommitId)

  /**
   * The contents of the database: which tables exist, `commit_details` keyed by its
   * primary key `id`, and `commit_relation` as a set of (parent, child) keys.
   * `ref_details` is never written, so only its existence is recorded.
   */
  datatype Snapshot = Snapshot(tables: set<Table>, details: map<CommitId, Row>, relation: set<Edge>)

  /** Why a run stops: an id the repository cannot resolve, or a rejected INSERT. */
  datatype Failure =
    | LookupFailed(id: CommitId)
    | DetailsInsertFailed(id: CommitId)
    | RelationInsertFailed(parent: CommitId, child: CommitId)

  /** The state a sequence of operations leaves behind, and the failure that stopped it, if any. */
  datatype Outcome = Outcome(state: Snapshot, failure: Option<Failure>)

  /** A database file that has just been created: no tables, no rows. */
  const EmptyDatabase := Snapshot({}, map[], {})

  predicate NoDuplicates<T(==)>(s: seq<T>) {
    forall i, j :: 0 <= i < j < |s| ==> s[i] != s[j]
  }

  function RowOf(r: CommitDetails): Row {
    Row(r.author, r.date, r.message)
  }

  /** One `commit_relation` key per parent: (p, child) for every p in ps. */
  function EdgesOf(ps: seq<CommitId>, child: CommitId): (es: set<Edge>)
    ensures forall e :: e in es <==> e.child == child && e.parent in ps
  {
    if ps == [] then {} else {Edge(ps[0], child)} + EdgesOf(ps[1..], child)
  }

  // ---------------------------------------------------------------------------
  // Statements. A statement that fails leaves the database as it was.

  /** CREATE TABLE: fails when the table exists already or the file cannot be written. */
  function CreateTable(st: Snapshot, t: Table, ioFails: bool): Result<Snapshot, Table> {
    if t in st.tables || ioFails then Err(t) else Ok(st.(tables := st.tables + {t}))
  }

  /** INSERT INTO commit_details: fails when the table is missing or the id is taken. */
  function InsertDetailsRow(st: Snapshot, id: CommitId, row: Row): Result<Snapshot, Failure> {
    if CommitDetailsTable in st.tables && id !in st.details
    then Ok(st.(details := st.details[id := row]))
    else Err(DetailsInsertFailed(id))
  }

  /** INSERT INTO commit_relation: fails when the table is missing or the pair is present. */
  function InsertRelationRow(st: Snapshot, e: Edge): Result<Snapshot, Failure> {
    if CommitRelationTable in st.tables && e !in st.relation
    then Ok(st.(relation := st.relation + {e}))
    else Err(RelationInsertFailed(e.parent, e.child))
  }

  // ---------------------------------------------------------------------------
  // Transactions, as `batch_insert_commits` runs them.

  /** The inner loop: one relation row per parent, in the order the record lists them. */
  function InsertEdges(st: Snapshot, ps: seq<CommitId>, child: CommitId): Result<Snapshot, Failure>
    decreases |ps|
  {
    if ps == [] then Ok(st)
    else match InsertRelationRow(st, Edge(ps[0], child))
      case Err(f) => Err(f)
      case Ok(next) => InsertEdges(next, ps[1..], child)
  }

  /**
   * One transaction: the commit row, then its edges. On failure the transaction is
   * dropped without commit, so the caller keeps the state it started from.
   */
  function PersistOne(st: Snapshot, r: CommitDetails): Result<Snapshot, Failure> {
    match InsertDetailsRow(st, r.id, RowOf(r))
    case Err(f) => Err(f)
    case Ok(withRow) => InsertEdges(withRow, r.parents, r.id)
  }

  /** The loop of `batch_insert_commits`: one transaction per record, stopping at the first failure. */
  function PersistAll(st: Snapshot, recs: seq<CommitDetails>): Outcome
    decreases |recs|
  {
    if recs == [] then Outcome(st, None)
    else match PersistOne(st, recs[0])
      case Err(f) => Outcome(st, Some(f))
      case Ok(next) => PersistAll(next, recs[1..])
  }

  // ---------------------------------------------------------------------------
  // The declarative view of a transaction, which the lemmas in PersistFacts connect to the above.

  /** A record's transaction commits exactly when none of its inserts hits a missing table or a taken key. */
  predicate CanPersist(st: Snapshot, r: CommitDetails) {
    && CommitDetailsTable in st.tables
    && r.id !in st.details
    && (r.parents != [] ==> CommitRelationTable in st.tables)
    && NoDuplicates(r.parents)
    && forall p :: p in r.parents ==> Edge(p, r.id) !in st.relation
  }

  /** What a committed transaction adds: the record's row and one edge per parent. */
  function Apply(st: Snapshot, r: CommitDetails): Snapshot {
    st.(details := st.details[r.id := RowOf(r)], relation := st.relation + EdgesOf(r.parents, r.id))
  }

  /** The state after committing every record of recs in order. */
  function ApplyAll(st: Snapshot, recs: seq<CommitDetails>): Snapshot
    decreases |recs|
  {
    if recs == [] then st else ApplyAll(Apply(st, recs[0]), recs[1..])
  }

  /** How many leading records of recs can be committed one after the other. */
  function PersistedCount(st: Snapshot, recs: seq<CommitDetails>): (k: nat)
    ensures k <= |recs|
    decreases |recs|
  {
    if recs == [] || !CanPersist(st, recs[0]) then 0
    else 1 + PersistedCount(Apply(st, recs[0]), recs[1..])
  }

  // ---------------------------------------------------------------------------

  /** The database connection. Its fields are the tables; each method is one SQL operation. */
  class Connection {
    var tables: set<Table>
    var commitDetails: map<CommitId, Row>
    var commitRelation: set<Edge>

    function State(): Snapshot
      reads this
    {
      Snapshot(tables, commitDetails, commitRelation)
    }

    constructor (init: Snapshot)
      ensures State() == init
    {
      tables, commitDetails, commitRelation := init.tables, init.details, init.relation;
    }

    method ExecuteCreateTable(t: Table, ioFails: bool) returns (ok: bool)
      modifies this
      ensures CreateTable(old(State()), t, ioFails) == if ok then Ok(State()) else Err(t)
      ensures !ok ==> State() == old(State())
    {
      ok := t !in tables && !ioFails;
      if ok {
        tables := tables + {t};
      }
    }

    method ExecuteInsertDetails(id: CommitId, row: Row) returns (ok: bool)
      modifies this
      ensures InsertDetailsRow(old(State()), id, row) == if ok then Ok(State()) else Err(DetailsInsertFailed(id))
      ensures !ok ==> State() == old(State())
    {
      ok := CommitDetailsTable in tables && id !in commitDetails;
      if ok {
        commitDetails := commitDetails[id := row];
      }
    }

    method ExecuteInsertRelation(e: Edge) returns (ok: bool)
      modifies this
      ensures InsertRelationRow(old(State()), e) == if ok then Ok(State()) else Err(RelationInsertFailed(e.parent, e.child))
      ensures !ok ==> State() == old(State())
    {
      ok := CommitRelationTable in tables && e !in commitRelation;
      if ok {
        commitRelation := commitRelation + {e};
      }
    }

    /** Dropping an uncommitted transaction restores the rows it started from. */
    method Rollback(saved: Snapshot)
      modifies this
      ensures State() == old(State()).(details := saved.details, relation := saved.relation)
    {
      commitDetails, commitRelation := saved.details, saved.relation;
    }

    /**
     * `batch_insert_commits`: each record in its own transaction; the first failing
     * insert ends the call with the failure, after rolling back that record only.
     */
    method BatchInsertCommits(commits: seq<CommitDetails>) returns (failure: Option<Failure>)
      modifies this
      ensures Outcome(State(), failure) == PersistAll(old(State()), commits)
    {
      var i := 0;
      while i < |commits|
        invariant 0 <= i <= |commits|
        invariant PersistAll(old(State()), commits) == PersistAll(State(), commits[i..])
      {
        var commit := commits[i];
        assert commits[i..][0] == commit && commits[i..][1..] == commits[i + 1..];
        var saved := State();
        var ok := ExecuteInsertDetails(commit.id, RowOf(commit));
        if !ok {
          return Some(DetailsInsertFailed(commit.id));
        }
        var j := 0;
        while j < |commit.parents|
          invariant 0 <= j <= |commit.parents|
          invariant tables == saved.tables
          invariant PersistOne(saved, commit) == InsertEdges(State(), commit.parents[j..], commit.id)
        {
          var edge := Edge(commit.parents[j], commit.id);
          assert commit.parents[j..][1..] == commit.parents[j + 1..];
          ok := ExecuteInsertRelation(edge);
          if !ok {
            Rollback(saved);
            return Some(RelationInsertFailed(edge.parent, edge.child));
          }
          j := j + 1;
        }
        i := i + 1;
      }
      return None;
    }
  }
}
