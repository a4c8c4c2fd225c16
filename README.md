# commitExtractor ingestion pipeline, modelled in Dafny

commitExtractor walks every commit reachable from a repository's HEAD. It extracts a
normalized record per commit: id, author, date, message and the ordered parent ids.
It stores each record in a SQLite database as one `commit_details` row plus one
`commit_relation` (parent, child) row per parent. Each record is written in its own
transaction. The walk is cut into windows of 50 entries, which bounds memory but not
atomicity.

This project models that pipeline (`src/main.rs`) over two abstractions:

- **The repository** is a materialized walk `seq<WalkEntry>` and a lookup
  `map<CommitId, RawCommit>`. Each walk entry is either an id or a walk error. The
  lookup stands for `find_commit`. Ids are opaque strings.
- **The database** is a `Snapshot` value: the set of existing tables, `commit_details`
  as a map keyed by its primary key, and `commit_relation` as a set of (parent, child)
  keys. The class `Storage.Connection` holds the same three things as mutable fields.
  Its methods are the SQL statements and the per-record transaction loop. Each method
  is proved to leave the state that a specification function computes from the old
  state.

Modules:

- `Commits` covers the record and `extract_commit_details`.
- `Storage` covers the tables, the statements with primary-key semantics, the
  transaction functions and the `Connection` class.
- `PersistFacts` covers atomicity, the prefix property and row and edge counts.
- `Ingest` covers windowing, gathering, the run and the driver method.
- `IngestFacts` holds the whole-run theorems.
- `Program` covers `create_database`, the schema gate and `main`.

A panic (`expect`) is modelled as a `Failure` value that ends the run. A transaction
dropped without commit (by `?` or by a panic while it is open) rolls back, so the
failing record leaves the database unchanged.

In three places the model follows the code where a reader might expect otherwise:

- A walk entry that is an error is reported and skipped. An id that `find_commit`
  cannot resolve aborts the run (src/main.rs:99); it is not skipped.
- Windows cut the walk entries before extraction, not the extracted records
  (src/main.rs:93-106). A window can therefore yield fewer than 50 records. Records
  already extracted in a window whose lookup fails are never persisted.
- A failing `commit_relation` insert panics inside `batch_insert_commits`
  (src/main.rs:144). It does not return an error, but it aborts the run just the same,
  and it rolls back the record's transaction, including its `commit_details` row.

## Model

| member | source | states |
|---|---|---|
| Commits.ExtractCommitDetails | src/main.rs:111-125 | id, date and parents (in order) are copied unchanged; author is "Unknown" exactly when it is absent or literally "Unknown", message is "No message" exactly when absent or literally that; present values are kept |
| Storage.EdgesOf | src/main.rs:139-145 | the edge keys of a record are exactly the pairs (p, child) with p among its parents |
| Storage.CreateTable | src/main.rs:55-82 | CREATE TABLE fails when the table exists or the file cannot be written, and otherwise adds the table |
| Storage.InsertDetailsRow | src/main.rs:134-137 | the commit insert fails on a missing table or on an id already present (primary key, src/main.rs:57) |
| Storage.InsertRelationRow | src/main.rs:140-144 | the relation insert fails on a missing table or on a (parent, child) pair already present (primary key, src/main.rs:69) |
| Storage.InsertEdges | src/main.rs:139-145 | the parent loop: one relation insert per parent in order, stopping at the first failure |
| Storage.PersistOne | src/main.rs:132-146 | one transaction: the commit row, then its edges; a failure yields no state, so nothing of the record remains |
| Storage.PersistAll | src/main.rs:131-149 | the record loop: one transaction per record, stopping at the first failure |
| Storage.Connection.constructor | src/main.rs:25 | opening the database file yields a connection whose tables and rows are the file's contents |
| Storage.Connection.ExecuteCreateTable | src/main.rs:55-82 | the connection's tables change as CreateTable says, and not at all on failure |
| Storage.Connection.ExecuteInsertDetails | src/main.rs:134-137 | the connection changes as InsertDetailsRow says, and not at all on failure |
| Storage.Connection.ExecuteInsertRelation | src/main.rs:140-144 | the connection changes as InsertRelationRow says, and not at all on failure |
| Storage.Connection.Rollback | src/main.rs:132-146 | dropping an uncommitted transaction restores both tables' rows to where it began |
| Storage.Connection.BatchInsertCommits | src/main.rs:127-150 | the final tables and the returned failure are exactly PersistAll's for the old state |
| PersistFacts.EdgesOfCount | src/main.rs:139-145 | distinct parents give as many distinct relation keys as there are parents |
| PersistFacts.InsertEdgesSpec | src/main.rs:139-145 | the parent loop succeeds iff the relation table exists (or there are no parents), the parents are distinct and none of their pairs exists; it then adds exactly those pairs, else it names one of them |
| PersistFacts.PersistOneSpec | src/main.rs:132-146 | a record's transaction commits iff CanPersist, adding exactly Apply's row and edges; otherwise it reports the commit-row failure or one of its own edges, and the state is unchanged |
| PersistFacts.ApplyAddsOneRow | src/main.rs:134-137 | a new id's commit row adds exactly one key, that id, holding the record's author, date and message; other rows are unchanged |
| PersistFacts.ApplyAddsOneEdgePerParent | src/main.rs:139-145 | distinct parents whose pairs are absent add exactly one relation row (p, id) per parent and nothing else |
| PersistFacts.ApplyAddsOneRowAndOneEdgePerParent | src/main.rs:132-146 | a committed record adds one commit row keyed by its id with its fields and one relation row (p, id) per parent; tables and earlier rows are unchanged |
| PersistFacts.PersistAllIsPrefix | src/main.rs:131-149 | with k the number of leading records committable in turn, the call leaves exactly records 0..k-1 persisted, succeeds iff k covers all, and otherwise returns record k's failure |
| PersistFacts.PersistedCountIsFirstFailure | src/main.rs:131-147 | every record before k was committable on its predecessors' state and record k is not |
| PersistFacts.ApplyAllContents | src/main.rs:131-146 | committing records in turn gives them distinct, new ids; the commit table's keys become the old keys plus those ids, each row holds its record's fields, and the relation grows by the total parent count |
| Ingest.Chunks | src/main.rs:93 | windows of at most 50 entries, none empty, all but the last exactly 50, concatenating back to the walk in order |
| Ingest.Gather | src/main.rs:96-105 | one window's inner loop: walk errors skipped, resolved ids looked up and extracted, an unresolvable id stops it |
| Ingest.RunWindows | src/main.rs:93-108 | per window, gather then persist; the first failure ends the run |
| Ingest.Run | src/main.rs:91-108 | the materialized walk cut into windows of 50, then RunWindows |
| Ingest.GatherStops | src/main.rs:99 | after a lookup failure, later entries change nothing |
| Ingest.GetCommitsDetailArray | src/main.rs:87-109 | the final tables and the failure are exactly Run's for the old state |
| IngestFacts.GatherSpec | src/main.rs:96-105 | gathering fails iff some resolved id cannot be looked up (and names one); otherwise it yields exactly one record per resolved id, in walk order, each its commit's extraction |
| IngestFacts.GatheredIds | src/main.rs:99-100 | when find_commit returns the commit asked for, the records' ids are the walk's ids in order |
| IngestFacts.GatherAppend | src/main.rs:93-106 | gathering window after window equals gathering the concatenated walk, up to the first failure |
| IngestFacts.RunWindowsResolved | src/main.rs:93-108 | when every id resolves, the windowed run equals one persister call over all the records |
| IngestFacts.RunResolved | src/main.rs:91-108 | the same for the materialized walk cut by Chunks |
| IngestFacts.GatherFailsOnLookup | src/main.rs:96-105 | gathering a window can only stop on an id that cannot be looked up |
| IngestFacts.PersistAllFailsOnInsert | src/main.rs:131-149 | the persister can only stop on a rejected insert, never on a lookup |
| IngestFacts.StoppedInFirstPart | src/main.rs:131-147 | a rejected insert in an earlier window is the first uncommittable record of the whole run's records |
| IngestFacts.StoppedInSecondPart | src/main.rs:93-108 | after a fully committed window, a rejected insert at record k' of the rest is the first uncommittable record of the whole, with all earlier records kept |
| IngestFacts.RunWindowsPersistFailure | src/main.rs:93-108 | a windowed run stopped by a rejected insert holds exactly the gathered records before the first one that cannot be committed, including earlier records of the same window, and reports that record's failure, whatever later windows hold |
| IngestFacts.RunWindowsLookupFailure | src/main.rs:93-108 | a windowed run stopped by an unresolvable id reports the walk's first such id and holds exactly the records of the windows before the one holding it, all committed; nothing of that window is persisted |
| IngestFacts.RunWindowsSuccess | src/main.rs:93-108 | a windowed run succeeds iff every id resolves and every record can be committed in turn, and then holds exactly all of them |
| IngestFacts.RunIsPrefix | src/main.rs:91-108 | for a whole run: success iff all ids resolve and all records commit, with all records held; a stop on an insert holds exactly records 0..k-1 and reports record k's failure; a stop on a lookup holds exactly the earlier windows' records |
| IngestFacts.AbortedRunKeepsEarlierRecords | src/main.rs:87-109 | a run stopped by a rejected insert on record k (even with unresolvable ids in later windows) had records 0..k-1 each committable in turn, leaves exactly them persisted, earlier records of the same window included, and reports record k's failure |
| IngestFacts.UnresolvableIdAborts | src/main.rs:99 | a walk id that cannot be looked up aborts the run |
| IngestFacts.ResolvedIdsContains | src/main.rs:96-98 | every id the walk yields appears among the resolved ids |
| IngestFacts.SuccessfulRunOnEmptyTables | src/main.rs:131-146 | a successful run on empty tables leaves commit_details keyed by exactly the records' (distinct) ids, with their fields, and as many relation rows as parents in total |
| IngestFacts.SuccessfulRunStoresWalkIds | src/main.rs:96-102 | with a consistent repository those keys are exactly the ids the walk yielded |
| IngestFacts.RerunFailsOnFirstRecord | src/main.rs:134-137 | rerunning on the database a successful run produced fails on the first record's commit-row insert and changes nothing |
| Program.CreateSchema | src/main.rs:54-85 | the three CREATE TABLE statements in order, stopping at the first failure and keeping earlier tables |
| Program.SchemaOnNewFile | src/main.rs:54-85 | on a new file, a table exists afterwards iff neither it nor an earlier table failed; no rows are written; the reported failure is the first failing table, which was not created |
| Program.MissingCommitTableAbortsFirstRecord | src/main.rs:28-40 | when commit_details could not be created the run still starts, and aborts on its first record with nothing written |
| Program.CreateDatabase | src/main.rs:54-85 | the connection's tables and the reported failure are exactly CreateSchema's |
| Program.Execute | src/main.rs:18-42 | schema creation runs only for a new file, its failure does not stop ingestion, and the final database and failure are Run's from the opened state |

## Left out

- Repository access (`git2`): revwalk creation and `push_head` (src/main.rs:88-89), the walk order and `Oid` formatting are not modelled. The walk is a given sequence and ids are opaque strings. The failures of those two calls are not modelled either.
- `find_commit` returning the commit with the requested id is not built into the lookup. It is the predicate `Consistent`, assumed only by the lemmas that relate stored keys to walk ids.
- `to_absolute_path` (src/main.rs:44-52), the command-line defaults (src/main.rs:21-22), `Repository::open` and the file I/O of `fs::metadata` and `Connection::open` are not modelled. The file is an `Option<Snapshot>`: None means it does not exist, and opening it then yields an empty database.
- Console output (`println!`, `eprintln!`) is not modelled. A reported error is one that does not change the outcome.
- Store failures other than primary-key violations and missing tables are not modelled: I/O errors on `transaction()` or `commit()` (src/main.rs:132, 146), locking, and disk space. Schema creation is the one exception: its I/O failures are the parameter `ioFailing`.
- The `ref_details` table (src/main.rs:74-82) is never written, so only whether it exists is modelled.
- The NOT NULL constraints are not modelled, because every inserted value is present.
- The date is an unbounded `int`. The source's `i64` is copied and never computed with, so nothing wraps.
- Panics are not process exits in the model; they end the run as a `Failure`. The check-then-open race on the database file is not modelled.
