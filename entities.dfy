/** The persisted entities: BaseEntity's audit columns and the Request queue row. */
module Entities {
  import opened Wrappers

  /** A DateTime value, in ticks. */
  type Time = int

  /** One row of the Requests table. The first four fields are those every
      BaseEntity carries; `default(DateTime)` is 0. */
  datatype Request = Request(
    Id: int,
    IsDeleted: bool,
    CreatedAt: Time,
    LastModifiedAt: Time,
    RequestIdentifier: string,
    DatastoreIdentifier: Option<string>,
    SuccessfullyRun: bool,
    CompletedAt: Option<Time>,
    FilePath: Option<string>)

  /** A row still waiting for the processor: its completion time is null. */
  predicate IsPending(r: Request) {
    r.CompletedAt.None?
  }

  /** The query filter installed for every entity with a bool IsDeleted. */
  predicate NotDeleted(r: Request) {
    !r.IsDeleted
  }
}
