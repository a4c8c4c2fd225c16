/**
 * The schema gate and the top-level sequence of `main` (src/main.rs:18-42) and
 * `create_database` (src/main.rs:54-85).
 */
module Program {
  import opened Wrappers
  import opened Commits
  import opened Storage
  import opened Ingest
  import opened IngestFacts

  /** What `create_database` leaves behind, and the table whose creation failed, if any. */
  datatype SchemaOutcome = SchemaOutcome(state: Snapshot, failed: Option<Table>)

  /**
   * The three CREATE TABLE statements in order; the `?` after each stops at the
   * first failure. Each statement commits on its own, so earlier tables stay.
   * `ioFailing` names the statements the file system makes fail.
   */
  function CreateSchema(st: Snapshot, ioFailing: set<Table>): SchemaOutcome {
    match CreateTable(st, CommitDetailsTable, CommitDetailsTable in ioFailing)
    case Err(t) => SchemaOutcome(st, Some(t))
    case Ok(s1) =>
      match CreateTable(s1, CommitRelationTable, CommitRelationTable in ioFailing)
      case Err(t) => SchemaOutcome(s1, Some(t))
      case Ok(s2) =>
        match CreateTable(s2, RefDetailsTable, RefDetailsTable in ioFailing)
        case Err(t) => SchemaOutcome(s2, Some(t))
        case Ok(s3) => SchemaOutcome(s3, None)
  }

  /**
   * On a new database file, a table exists afterwards exactly when neither its own
   * statement nor an earlier one failed; no rows are written; the failure reported
   * is the first failing table.
   */
  lemma SchemaOnNewFile(ioFailing: set<Table>)
    ensures var o := CreateSchema(EmptyDatabase, ioFailing);
      && o.state.details == map[] && o.state.relation == {}
      && (CommitDetailsTable in o.state.tables <==> CommitDetailsTable !in ioFailing)
      && (CommitRelationTable in o.state.tables <==>
            CommitDetailsTable !in ioFailing && CommitRelationTable !in ioFailing)
      && (RefDetailsTable in o.state.tables <==>
            CommitDetailsTable !in ioFailing && CommitRelationTable !in ioFailing && RefDetailsTable !in ioFailing)
      && (o.failed.None? <==> o.state.tables == {CommitDetailsTable, CommitRelationTable, RefDetailsTable})
      && (o.failed.Some? ==> o.failed.value in ioFailing && o.failed.value !in o.state.tables)
      && (CommitDetailsTable in ioFailing ==> o.failed == Some(CommitDetailsTable))
      && (CommitDetailsTable !in ioFailing && CommitRelationTable in ioFailing ==> o.failed == Some(CommitRelationTable))
  {
  }

  /**
   * Schema creation failing does not stop the run (src/main.rs:30-33), but when the
   * commit table could not be created the run aborts on its first record without
   * writing anything.
   */
  lemma MissingCommitTableAbortsFirstRecord(ioFailing: set<Table>, walk: seq<WalkEntry>, lookup: Lookup)
    requires CommitDetailsTable in ioFailing
    requires Gather(walk, lookup).failure.None? && Gather(walk, lookup).records != []
    ensures var s := CreateSchema(EmptyDatabase, ioFailing).state;
      Run(s, walk, lookup) == Outcome(s, Some(DetailsInsertFailed(Gather(walk, lookup).records[0].id)))
  {
    var s := CreateSchema(EmptyDatabase, ioFailing).state;
    RunResolved(s, walk, lookup);
  }

  /** `create_database`, one statement after the other. */
  method CreateDatabase(conn: Connection, ioFailing: set<Table>) returns (failed: Option<Table>)
    modifies conn
    ensures SchemaOutcome(conn.State(), failed) == CreateSchema(old(conn.State()), ioFailing)
  {
    var ok := conn.ExecuteCreateTable(CommitDetailsTable, CommitDetailsTable in ioFailing);
    if !ok {
      return Some(CommitDetailsTable);
    }
    ok := conn.ExecuteCreateTable(CommitRelationTable, CommitRelationTable in ioFailing);
    if !ok {
      return Some(CommitRelationTable);
    }
    ok := conn.ExecuteCreateTable(RefDetailsTable, RefDetailsTable in ioFailing);
    if !ok {
      return Some(RefDetailsTable);
    }
    return None;
  }

  /**
   * `main`: open the database file (`file` is its contents, or None when it does
   * not exist and opening creates it empty), create the schema only for a new file,
   * carry on whatever that reports, then ingest the walk.
   */
  method Execute(file: Option<Snapshot>, ioFailing: set<Table>, walk: seq<WalkEntry>, lookup: Lookup)
    returns (conn: Connection, schemaFailure: Option<Table>, failure: Option<Failure>)
    ensures fresh(conn)
    ensures file.Some? ==> schemaFailure.None?
    ensures file.None? ==> schemaFailure == CreateSchema(EmptyDatabase, ioFailing).failed
    ensures var start := if file.Some? then file.value else CreateSchema(EmptyDatabase, ioFailing).state;
      Outcome(conn.State(), failure) == Run(start, walk, lookup)
  {
    var dbExists := file.Some?;
    conn := new Connection(if dbExists then file.value else EmptyDatabase);
    schemaFailure := None;
    if !dbExists {
      schemaFailure := CreateDatabase(conn, ioFailing);
      // a failure is reported and the run goes on
    }
    failure := GetCommitsDetailArray(conn, walk, lookup);
  }
}
