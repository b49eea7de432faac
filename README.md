# Document fetching service: the request queue, verified

This project models the core of the document fetching service. Export
requests are kept as rows of the `Requests` table. A client submits a list of
secure data store identifiers, and the service queues one pending row per
identifier. A background worker repeatedly takes the oldest pending row. It
fetches the document from the secure data store and decodes its Base64
content. It writes the result as `{RequestIdentifier}_{FileName}.json` into
the output directory. Then it records the outcome on the row: completion
time, success flag and stored path.

The model has three layers, one per core file:

- `Database` (`database_context.dfy`) models the EF Core context. The class
  `DatabaseContext` holds the table and its change tracker as a sequence of
  entries, each a row value and its `EntityState`, plus the identity seed.
  `SaveChanges` is written as its three passes: soft delete, audit
  timestamps, accept. `OnModelCreating` installs the `!IsDeleted` query
  filter. The constructor and `DataContextFactory.CreateDbContext` set the
  process-wide connection string.
- `Repositories` (`database_repository.dfy`) models the generic repository:
  create, the four read forms, the two counts, update and soft delete. Each
  keeps its argument checks, and each exception is an error value.
- `Business` (`export_management.dfy`) models the export service. It covers
  intake, selection of the next request, loading and decoding, writing the
  file, and recording success or failure.

`Linq` (`linq.dfy`) holds the LINQ operators the repository relies on
(`Where`, `SingleOrDefault`) and their algebra. `Entities` holds the
`Request` row, and `Wrappers` holds `Option`/`Result`.

The environment becomes parameters:

- the secure data store client is a function from identifier to a fetch
  outcome (it throws, or returns a possibly null model);
- Base64 decoding is a function that fails on malformed input;
- whether the file write succeeds is a flag;
- the clock is one `now` per call;
- the GUIDs are a supplied sequence;
- the output folder is a map from path to content.

The program keeps a reference to the tracked `Request` object and writes its
properties in place. The model reaches that object by key instead
(`DatabaseContext.Modify`), and EF's change detection marks the entry
Modified only when a value actually changed.

The worker's timer calls `ProcessRequest` again and again, each time on a
new scoped context over the stored rows. `Business.Run` composes intakes,
processing runs and deletes as the methods leave the table, and the lemmas
about it hold over any such sequence.

Where the written specification and the code differ, the model follows the
code:

- An empty identifier list is accepted. It queues nothing and reports no
  error.
- An empty document content is loaded and written like any other. Only a
  null identifier, a null model, a null content, or an exception makes a
  request fail.

## Model

| member | source | states |
|---|---|---|
| Linq.Where | Microservice.Business/Repositories/Concrete/DatabaseRepository.cs:51 | the result holds exactly the elements satisfying the predicate, and is no longer than the input |
| Linq.SingleOrDefault | Microservice.Business/Repositories/Concrete/DatabaseRepository.cs:62 | no match iff no element satisfies the predicate; many matches iff two distinct positions do; a single match is a satisfying element |
| Database.Query | Microservice.Database/DatabaseContext.cs:44-55 | a read sees exactly the tracked rows that are not soft-deleted |
| Database.Saved | Microservice.Database/DatabaseContext.cs:59-82 | after SaveChanges an entry is Unchanged; IsDeleted is set iff it was deleted or marked Deleted; LastModifiedAt becomes now unless the entry was Unchanged; CreatedAt becomes now iff it was Added; no other field changes |
| Database.SaveAllKeepsRows | Microservice.Database/DatabaseContext.cs:59-82 | SaveChanges removes no row, leaves a settled tracker as it is, and always leaves it settled |
| Database.SoftDeleteHides | Microservice.Database/DatabaseContext.cs:61-68 | removing a tracked row and saving keeps it stored with IsDeleted set, hides it from every read, and over a settled tracker keeps every other visible row visible |
| Database.QueryRowIsTracked | Microservice.Business/Repositories/Concrete/DatabaseRepository.cs:88-93 | a row a read returns is the tracked entity with that key, so Remove finds it |
| Database.FindProperty | Microservice.Database/DatabaseContext.cs:46 | returns a property of that name when one exists, and none exactly when none has that name |
| Database.RequestEntityTypeIsFiltered | Microservice.Database/DatabaseContext.cs:44-55 | the Request entity type has a bool IsDeleted property, and the filter it receives is exactly "not deleted" |
| Database.DatabaseContext.constructor | Microservice.Database/DatabaseContext.cs:20-26 | the connection string is replaced only by a non-null, non-empty argument; the context opens the stored rows with nothing pending |
| Database.DatabaseContext.OnModelCreating | Microservice.Database/DatabaseContext.cs:37-57 | every entity type with a bool IsDeleted property gets the `!IsDeleted` filter; all others are unchanged |
| Database.DatabaseContext.Add | Microservice.Business/Repositories/Concrete/DatabaseRepository.cs:26 | the entity is tracked as Added after the existing rows, with a fresh key |
| Database.DatabaseContext.Remove | Microservice.Business/Repositories/Concrete/DatabaseRepository.cs:93 | the tracked entity with that key is marked Deleted; nothing else changes |
| Database.DatabaseContext.Modify | Microservice.Business/Business/Concrete/ExportManagement.cs:82-84 | property writes to a tracked entity replace its values and mark it Modified only when they change something |
| Database.SaveChangesPasses | Microservice.Database/DatabaseContext.cs:59-82 | the soft-delete, stamp and accept passes compose to the effect of SaveChanges on every entry, keep every key, and keep the number of entries with a pending change |
| Database.DatabaseContext.SaveChanges | Microservice.Database/DatabaseContext.cs:59-82 | the new tracker is the soft-delete, stamp and accept passes applied to every entry; the count returned is the number of pending entries |
| Database.CreateDbContext | Microservice.Database/DatabaseContext.cs:97-112 | the configured connection becomes the process-wide connection string of a new context over the stored rows, with nothing pending |
| Repositories.DatabaseRepository.Create | Microservice.Business/Repositories/Concrete/DatabaseRepository.cs:22-28 | a null entity throws ArgumentNullException and changes nothing; an entity with a preset key is refused by the identity column and stores nothing; otherwise the entity is added under a fresh key and saved |
| Repositories.DatabaseRepository.Read | Microservice.Business/Repositories/Concrete/DatabaseRepository.cs:30-33 | returns every stored row that is not soft-deleted, and only those |
| Repositories.DatabaseRepository.ReadById | Microservice.Business/Repositories/Concrete/DatabaseRepository.cs:35-41 | id 0 throws ArgumentNullException; otherwise returns the visible row with that key, or the default iff there is none |
| Repositories.DatabaseRepository.ReadWhere | Microservice.Business/Repositories/Concrete/DatabaseRepository.cs:43-52 | returns exactly the visible rows that satisfy the predicate |
| Repositories.DatabaseRepository.ReadOne | Microservice.Business/Repositories/Concrete/DatabaseRepository.cs:54-63 | default iff no visible row matches; throws iff two visible rows match; otherwise returns the one matching row |
| Repositories.DatabaseRepository.Count | Microservice.Business/Repositories/Concrete/DatabaseRepository.cs:65-68 | counts the visible rows: all stored rows exactly when none is soft-deleted |
| Repositories.DatabaseRepository.CountWhere | Microservice.Business/Repositories/Concrete/DatabaseRepository.cs:70-73 | at most Count(), and zero iff no visible row satisfies the predicate |
| Repositories.DatabaseRepository.Update | Microservice.Business/Repositories/Concrete/DatabaseRepository.cs:75-81 | a null entity throws and changes nothing; otherwise the pending changes are saved |
| Repositories.DatabaseRepository.Delete | Microservice.Business/Repositories/Concrete/DatabaseRepository.cs:83-95 | id 0, a missing row and an ambiguous key each throw and change nothing; otherwise the row is soft-deleted, the table keeps its size, and a read by that id finds nothing |
| Repositories.ReadByIdNeverAmbiguous | Microservice.Business/Repositories/Concrete/DatabaseRepository.cs:35-41 | with unique keys, reading by a non-zero id never throws |
| Repositories.CountWherePartition | Microservice.Business/Repositories/Concrete/DatabaseRepository.cs:65-73 | the counts for a predicate and for its negation add up to Count() |
| Repositories.CreateAppendsRow | Microservice.Business/Repositories/Concrete/DatabaseRepository.cs:22-28 | over a settled tracker, Create stores exactly the new row stamped with its creation time, and reads see it after the existing rows unless it is deleted |
| Business.LoadFileFromSDS | Microservice.Business/Business/Concrete/ExportManagement.cs:123-138 | null iff the identifier, the model or its content is null; throws iff the fetch or the decode throws; otherwise the file name is the store's and the content is the decoded content |
| Business.Combine | Microservice.Business/Business/Concrete/ExportManagement.cs:101-102 | the combined path always ends with the file name |
| Business.OutputFileNamesDistinct | Microservice.Business/Business/Concrete/ExportManagement.cs:101-102 | requests with distinct GUID identifiers never write to the same file name |
| Business.CombineDistinct | Microservice.Business/Business/Concrete/ExportManagement.cs:101-102 | in one output directory, distinct non-empty relative names give distinct paths |
| Business.OutputPathsDistinct | Microservice.Business/Business/Concrete/ExportManagement.cs:101-106 | requests with distinct GUID identifiers never write to the same path |
| Business.FirstByCreatedAt | Microservice.Business/Business/Concrete/ExportManagement.cs:56-59 | picks the first row with the least CreatedAt: not after any row, and strictly before every earlier row (a stable order) |
| Business.SelectNext | Microservice.Business/Business/Concrete/ExportManagement.cs:56-65 | nothing is selected iff no visible row is pending; otherwise the selection is a visible pending row created no later than any other |
| Business.SaveOneChange | Microservice.Business/Business/Concrete/ExportManagement.cs:82-85 | over a settled tracker, changing the selected row and updating replaces that row alone, stamped with now |
| Business.NextTableSelected | Microservice.Business/Business/Concrete/ExportManagement.cs:54-88 | once a request is selected, a run replaces its row, and only its row, by the completed and stamped version |
| Business.ProcessSucceededTable | Microservice.Business/Business/Concrete/ExportManagement.cs:82-85 | recording a successful export gives exactly the one-step table |
| Business.MarkFailedAgain | Microservice.Business/Business/Concrete/ExportManagement.cs:94-99 | a request that is marked failed a second time in the same run (after a null load) stays as it is |
| Business.ProcessFailedTable | Microservice.Business/Business/Concrete/ExportManagement.cs:94-99 | a failed export gives the one-step table, and the second failure mark after a null load changes nothing |
| Business.ProcessIdle | Microservice.Business/Business/Concrete/ExportManagement.cs:59-65 | when no request is pending, a run changes neither the table nor the output folder |
| Business.ProcessFiles | Microservice.Business/Business/Concrete/ExportManagement.cs:101-106 | a run adds the exported file to the output folder when there is one, and otherwise leaves the folder alone |
| Business.ProcessCompletesSelected | Microservice.Business/Business/Concrete/ExportManagement.cs:54-88 | one run completes the selected row with CompletedAt now and SuccessfullyRun iff a file was written; FilePath changes only on success; no other row or field changes |
| Business.ExportFailsExactly | Microservice.Business/Business/Concrete/ExportManagement.cs:90-113 | a run fails exactly when the identifier is null, the store gives no content, the fetch or the decode throws, or the write fails |
| Business.ExportWritesDecodedContent | Microservice.Business/Business/Concrete/ExportManagement.cs:101-106 | a written file is named `{RequestIdentifier}_{FileName}.json` in the output directory and holds the decoded content |
| Business.ExportRoundTrip | Microservice.Business/Business/Concrete/ExportManagement.cs:123-138 | content encoded by the store and decoded by the inverse reaches the file unchanged, the empty content included |
| Business.ProcessDrainsOne | Microservice.Business/Business/Concrete/ExportManagement.cs:54-88 | each run that selects a request shrinks the pending queue by exactly one |
| Business.NextTableKeepsCompleted | Microservice.Business/Business/Concrete/ExportManagement.cs:54-88 | a run keeps every row in place with its key, keeps completed rows completed, and keeps keys unique and below the identity seed |
| Business.CompletedNeverSelected | Microservice.Business/Business/Concrete/ExportManagement.cs:56-59 | a row completed in one state of the table is not selected in any later state that keeps it completed |
| Business.IntakeKeepsKeys | Microservice.Business/Business/Concrete/ExportManagement.cs:39-50 | intake appends rows under fresh consecutive keys, so keys stay unique and below the identity seed |
| Business.SoftDeleteKeepsCompleted | Microservice.Business/Repositories/Concrete/DatabaseRepository.cs:83-95 | a soft delete keeps every row in place with its key and its completion time |
| Business.StepKeepsCompleted | Microservice.Business/Business/Concrete/ExportManagement.cs:33-88 | each intake, processing run or delete keeps the identity invariant and every completed row |
| Business.RunKeepsCompleted | Microservice.Business/BackgroundWorker/ProcessRequestWorker.cs:38-43 | over any sequence of intakes, runs and deletes, keys stay unique and completed rows stay completed |
| Business.NotSelectedAgain | Microservice.Business/Business/Concrete/ExportManagement.cs:54-88 | a processed request is never selected again, neither by the next run nor by any run after further intakes, runs and deletes |
| Business.QueuedRowsPending | Microservice.Business/Business/Concrete/ExportManagement.cs:41-45 | new request rows are visible and pending |
| Business.AddRequestQueuesInOrder | Microservice.Business/Business/Concrete/ExportManagement.cs:39-50 | after intake the pending queue is the old one followed by one row per identifier, in list order, duplicates kept |
| Business.ExportManagement.constructor | Microservice.Business/Business/Concrete/ExportManagement.cs:23-31 | keeps the repository and the output directory |
| Business.ExportManagement.AddRequest | Microservice.Business/Business/Concrete/ExportManagement.cs:33-52 | reports no error and appends one pending row per identifier, with consecutive keys, the supplied GUID and creation time |
| Business.ExportManagement.ProcessRequest | Microservice.Business/Business/Concrete/ExportManagement.cs:54-88 | the new table and output folder are exactly the one-step functions of the old ones; the directory exists afterwards iff it existed or a request was selected |
| Business.ExportManagement.ExportAndRecord | Microservice.Business/Business/Concrete/ExportManagement.cs:70-85 | once a request is selected, the new table and output folder are the one-step functions of the old ones |
| Business.ExportManagement.WriteToInputFolder | Microservice.Business/Business/Concrete/ExportManagement.cs:90-113 | returns the path iff the file was written, adds that file with the decoded content, and marks the request failed when the load returns null |
| Business.ExportManagement.UpdateFailedRequest | Microservice.Business/Business/Concrete/ExportManagement.cs:115-120 | the request is completed now as unsuccessful, and saved |

## Left out

- The background worker's timer, the HTTP controller, Startup, the
  migrations and logging are not part of this model. Repeated runs are
  modelled one after another; two runs that overlap in time, and so may
  select the same row, are not.
- Business.ExportManagement.constructor: the output directory is taken as
  given. Joining it to the assembly location and reading the store address
  from configuration are not modelled.
- Business.Combine: uses '/' as the only separator and treats a leading '/'
  as rooted. Windows drive and UNC rules are not modelled.
- Business.ExportManagement.WriteToInputFolder: a write either succeeds
  whole or fails before anything is written. Partial files and a failing
  `Directory.CreateDirectory` are not modelled.
- Business.LoadFileFromSDS: Base64 decoding is an abstract function. Its
  alphabet and padding rules are not modelled.
- Business.ExportManagement.AddRequest: requires a tracker with no pending
  changes, as the fresh scoped context over the stored rows has. A null
  identifier list is not modelled, because the request model declares it
  required.
- Business.ExportManagement.ProcessRequest: requires a tracker with no
  pending changes. All clock reads of one call share one `now`.
- Database.DatabaseContext.Add: the key is assigned when the entity is
  added, not when it is saved. Create saves at once and only adds entities
  whose key is 0, so the stored rows are the same.
- Repositories.DatabaseRepository.Create: when the identity column refuses
  an entity with a preset key, the stored rows are unchanged, as modelled.
  The Added entry left in that context's change tracker is not modelled,
  nor is Add throwing for a key that is already tracked. AddRequest always
  passes key 0.
- Business.FirstByCreatedAt: among pending rows with equal CreatedAt it
  picks the first in table order. The database returns the rows of an
  unordered query in no specified order, so this tie-break is the model's
  choice.
- Database.DatabaseContext.Remove: removing an entity that is only Added
  (which EF detaches) is not modelled, because the repository removes only
  rows it has read.
- Database.DatabaseContext.constructor: `Database.Migrate()` and the SQL
  Server connection are not modelled.
- Database.Query: the query filter is applied to the tracked values. The
  difference between server-side filtering and tracked values does not
  arise while the tracker is settled.
- Navigation-property `Include` in the read forms is not modelled, because
  Request has no navigation properties.
- Keys and counts are unbounded integers. 32-bit identity overflow is not
  modelled.
- RequestIdentifier is taken as never null, because AddRequest always sets
  it. A null FileName from the store is treated as the empty string.
