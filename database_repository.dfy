/** The generic repository over the Requests set: create, the read forms,
    count, update and delete, each with its argument checks. */
module Repositories {
  import opened Wrappers
  import opened Entities
  import opened Linq
  import opened Database

  /** The exceptions the repository throws. */
  datatype Error =
    | ArgumentNull(ParamName: string)  // ArgumentNullException
    | RecordNotFound                   // "Unable to delete record as it does not exist"
    | MoreThanOneMatch                 // SingleOrDefault over two or more matches
    | IdentityInsert                   // SaveChanges writing an explicit value into the identity column

  /** The predicate `s => s.Id.Equals(id)`. */
  function ById(id: int): Request -> bool {
    (r: Request) => r.Id == id
  }

  /** `SingleOrDefault` with its exception as an error value. */
  function SingleResult(s: Single<Request>): Result<Option<Request>, Error> {
    match s
    case NoMatch => Success(None)
    case OneMatch(r) => Success(Some(r))
    case ManyMatches => Failure(MoreThanOneMatch)
  }

  class DatabaseRepository {
    const db: DatabaseContext

    constructor (dbContext: DatabaseContext)
      ensures db == dbContext
    {
      db := dbContext;
    }

    /** Adds `entity` and saves; a null entity is rejected before anything
        changes. The Id column is an identity column, so the insert of an
        entity whose key is already set is refused and stores nothing. */
    method Create(entity: Option<Request>, now: Time) returns (result: Outcome<Error>)
      requires db.Valid()
      modifies db
      ensures db.Valid()
      ensures entity.None? ==>
        result == Fail(ArgumentNull("entity")) && db.entries == old(db.entries) && db.nextId == old(db.nextId)
      ensures entity.Some? && entity.value.Id != 0 ==>
        result == Fail(IdentityInsert) && db.entries == old(db.entries) && db.nextId == old(db.nextId)
      ensures entity.Some? && entity.value.Id == 0 ==>
        && result == Pass
        && db.nextId == old(db.nextId) + 1
        && db.entries == SaveAll(old(db.entries) + [Entry(entity.value.(Id := old(db.nextId)), Added)], now)
    {
      if entity.None? {
        return Fail(ArgumentNull("entity"));
      }
      if entity.value.Id != 0 {
        return Fail(IdentityInsert);
      }
      db.Add(entity.value);
      var _ := db.SaveChanges(now);
      return Pass;
    }

    /** Every row the query filter lets through, in table order. */
    function Read(): (rows: seq<Request>)
      reads db
      ensures forall r :: r in rows ==> !r.IsDeleted && r in Rows(db.entries)
      ensures forall i :: 0 <= i < |db.entries| && !db.entries[i].entity.IsDeleted ==> db.entries[i].entity in rows
    {
      assert forall i :: 0 <= i < |db.entries| ==> Rows(db.entries)[i] == db.entries[i].entity;
      Query(db.entries)
    }

    /** The visible row with key `id`, or the default; a zero id is rejected. */
    function ReadById(id: int): (r: Result<Option<Request>, Error>)
      reads db
      ensures id == 0 ==> r == Failure(ArgumentNull("id"))
      ensures id != 0 && r.Success? && r.value.Some? ==> r.value.value in Read() && r.value.value.Id == id
      ensures id != 0 ==> (r == Success(None) <==> forall x :: x in Read() ==> x.Id != id)
    {
      if id == 0 then Failure(ArgumentNull("id")) else ReadOne(ById(id))
    }

    /** Exactly the visible rows satisfying `filter`, in table order. */
    function ReadWhere(filter: Request -> bool): (rows: seq<Request>)
      reads db
      ensures |rows| <= |Read()|
      ensures forall r :: r in rows <==> r in Read() && filter(r)
    {
      Where(Read(), filter)
    }

    /** The single visible row satisfying `filter`, the default when there
        is none, an error when there are several. */
    function ReadOne(filter: Request -> bool): (r: Result<Option<Request>, Error>)
      reads db
      ensures var v := Read();
        r == Success(None) <==> forall i :: 0 <= i < |v| ==> !filter(v[i])
      ensures r.Success? && r.value.Some? ==> r.value.value in Read() && filter(r.value.value)
      ensures r.Failure? ==> r.error == MoreThanOneMatch
      ensures var v := Read();
        r.Failure? <==> exists i, j :: 0 <= i < j < |v| && filter(v[i]) && filter(v[j])
    {
      SingleResult(SingleOrDefault(Read(), filter))
    }

    /** The number of visible rows: every stored row exactly when none is soft-deleted. */
    function Count(): (n: nat)
      reads db
      ensures n <= |db.entries|
      ensures n == |db.entries| <==> forall i :: 0 <= i < |db.entries| ==> !db.entries[i].entity.IsDeleted
    {
      var rows := Rows(db.entries);
      assert forall i :: 0 <= i < |db.entries| ==> rows[i] == db.entries[i].entity;
      WhereKeepsAll(rows, NotDeleted);
      |Read()|
    }

    /** The number of visible rows satisfying `filter`. */
    function CountWhere(filter: Request -> bool): (n: nat)
      reads db
      ensures n <= Count()
      ensures n == 0 <==> forall r :: r in Read() ==> !filter(r)
    {
      var rows := ReadWhere(filter);
      assert |rows| > 0 ==> rows[0] in rows;
      |rows|
    }

    /** Saves the pending changes; a null entity is rejected. The entity itself
        is not attached: only changes already tracked are written. */
    method Update(entity: Option<Request>, now: Time) returns (result: Outcome<Error>)
      requires db.Valid()
      modifies db
      ensures db.Valid() && db.nextId == old(db.nextId)
      ensures entity.None? ==> result == Fail(ArgumentNull("entity")) && db.entries == old(db.entries)
      ensures entity.Some? ==> result == Pass && db.entries == SaveAll(old(db.entries), now)
    {
      if entity.None? {
        return Fail(ArgumentNull("entity"));
      }
      var _ := db.SaveChanges(now);
      return Pass;
    }

    /** Soft-deletes the visible row with key `id`: a zero id, a missing row
        and an ambiguous key are errors that change nothing. */
    method Delete(id: int, now: Time) returns (result: Outcome<Error>)
      requires db.Valid()
      modifies db
      ensures db.Valid() && db.nextId == old(db.nextId)
      ensures id == 0 ==> result == Fail(ArgumentNull("id")) && db.entries == old(db.entries)
      ensures id != 0 && old(ReadById(id)) == Success(None) ==>
        result == Fail(RecordNotFound) && db.entries == old(db.entries)
      ensures id != 0 && old(ReadById(id)).Failure? ==>
        result == Fail(MoreThanOneMatch) && db.entries == old(db.entries)
      ensures id != 0 && old(ReadById(id)).Success? && old(ReadById(id)).value.Some? ==>
        result == Pass && db.entries == SaveAll(MarkDeleted(old(db.entries), id), now)
      ensures result.Pass? ==> |db.entries| == |old(db.entries)| && ReadById(id) == Success(None)
    {
      if id == 0 {
        return Fail(ArgumentNull("id"));
      }
      var entity := ReadOne(ById(id));
      match entity {
        case Failure(_) =>
          return Fail(MoreThanOneMatch);
        case Success(None) =>
          return Fail(RecordNotFound);
        case Success(Some(e)) =>
          ghost var before := db.entries;
          QueryRowIsTracked(before, e);
          db.Remove(e);
          var _ := db.SaveChanges(now);
          SoftDeleteHides(before, id, now);
          return Pass;
      }
    }
  }

  /** With unique keys, reading by id never finds two rows. */
  lemma ReadByIdNeverAmbiguous(repo: DatabaseRepository, id: int)
    requires repo.db.Valid() && id != 0
    ensures repo.ReadById(id).Success?
  {
    var v := repo.Read();
    QueryDistinct(repo.db.entries);
    forall i, j | 0 <= i < j < |v| && v[i].Id == id ensures v[j].Id != id {
      var es := repo.db.entries;
      var a :| 0 <= a < |es| && es[a].entity == v[i];
      var b :| 0 <= b < |es| && es[b].entity == v[j];
      assert v[i] != v[j];
    }
  }

  /** Counting by a predicate and by its negation splits the visible rows. */
  lemma CountWherePartition(repo: DatabaseRepository, p: Request -> bool, q: Request -> bool)
    requires forall r :: q(r) == !p(r)
    ensures repo.CountWhere(p) + repo.CountWhere(q) == repo.Count()
  {
    WhereSplit(repo.Read(), p, q);
  }

  /** Over a tracker with nothing pending, Create stores exactly the new row,
      stamped with its creation time, and every read sees it after the
      existing rows. */
  lemma {:induction false} CreateAppendsRow(es: seq<Entry>, e: Request, id: int, now: Time)
    requires AllUnchanged(es)
    ensures var row := e.(Id := id, CreatedAt := now, LastModifiedAt := now);
      && SaveAll(es + [Entry(e.(Id := id), Added)], now) == es + [Entry(row, Unchanged)]
      && AllUnchanged(es + [Entry(row, Unchanged)])
      && Query(es + [Entry(row, Unchanged)]) == Query(es) + (if e.IsDeleted then [] else [row])
  {
    var row := e.(Id := id, CreatedAt := now, LastModifiedAt := now);
    var added := es + [Entry(e.(Id := id), Added)];
    SaveAllKeepsRows(es, now);
    assert SaveAll(added, now) == es + [Entry(row, Unchanged)];
    assert Rows(es + [Entry(row, Unchanged)]) == Rows(es) + [row];
    WhereAppend(Rows(es), [row], NotDeleted);
  }
}
