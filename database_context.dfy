/** The EF Core database context: the Requests table together with the change
    tracker, the soft-delete and audit-timestamp pass of SaveChanges, the
    IsDeleted query filter built in OnModelCreating, and the process-wide
    connection string. */
module Database {
  import opened Wrappers
  import opened Entities
  import opened Linq

  /** The change-tracker state of an entity (Detached entities are not tracked). */
  datatype EntityState = Unchanged | Added | Modified | Deleted

  /** One tracked row: its current values and its pending change. */
  datatype Entry = Entry(entity: Request, state: EntityState)

  /** The values of the tracked rows, in table order. */
  function Rows(es: seq<Entry>): seq<Request> {
    seq(|es|, i requires 0 <= i < |es| => es[i].entity)
  }

  /** The rows of two trackers laid end to end. */
  lemma RowsAppend(es: seq<Entry>, fs: seq<Entry>)
    ensures Rows(es + fs) == Rows(es) + Rows(fs)
  {
  }

  /** What every read of the table sees: the rows that pass the query filter. */
  function Query(es: seq<Entry>): (rows: seq<Request>)
    ensures |rows| <= |es|
    ensures forall r :: r in rows <==> NotDeleted(r) && exists i :: 0 <= i < |es| && es[i].entity == r
  {
    var all := Rows(es);
    assert forall r :: r in all <==> exists i :: 0 <= i < |es| && es[i].entity == r by {
      forall r ensures r in all <==> exists i :: 0 <= i < |es| && es[i].entity == r {
        if r in all {
          var i :| 0 <= i < |all| && all[i] == r;
          assert es[i].entity == r;
        }
        if exists i :: 0 <= i < |es| && es[i].entity == r {
          var i :| 0 <= i < |es| && es[i].entity == r;
          assert all[i] == r;
        }
      }
    }
    Where(all, NotDeleted)
  }

  /** No two rows share a primary key. */
  ghost predicate UniqueKeys(es: seq<Entry>) {
    forall i, j :: 0 <= i < |es| && 0 <= j < |es| && es[i].entity.Id == es[j].entity.Id ==> i == j
  }

  /** Rows that keep their keys position by position keep them unique. */
  lemma KeysCarryOver(es: seq<Entry>, fs: seq<Entry>)
    requires UniqueKeys(es) && |fs| == |es|
    requires forall i :: 0 <= i < |es| ==> fs[i].entity.Id == es[i].entity.Id
    ensures UniqueKeys(fs)
  {
  }

  /** The identity column's invariant: keys are positive, distinct and below
      the next identity value. */
  ghost predicate KeysBelow(es: seq<Entry>, nextId: int) {
    && 0 < nextId
    && (forall i :: 0 <= i < |es| ==> 0 < es[i].entity.Id < nextId)
    && UniqueKeys(es)
  }

  /** Every entry is Unchanged: nothing waits for SaveChanges. */
  ghost predicate AllUnchanged(es: seq<Entry>) {
    forall i :: 0 <= i < |es| ==> es[i].state == Unchanged
  }

  /** The change tracker's identity map: the position of the entity with key `id`. */
  function KeyIndex(es: seq<Entry>, id: int): (k: Option<nat>)
    ensures k.None? <==> forall j :: 0 <= j < |es| ==> es[j].entity.Id != id
    ensures k.Some? ==> k.value < |es| && es[k.value].entity.Id == id
    ensures k.Some? ==> forall j :: 0 <= j < k.value ==> es[j].entity.Id != id
  {
    if es == [] then None
    else if es[0].entity.Id == id then Some(0)
    else
      match KeyIndex(es[1..], id)
      case None => None
      case Some(k) => Some(k + 1)
  }

  /** The first pass of SaveChanges: a Deleted entry becomes a Modified one
      whose IsDeleted is set. */
  function SoftDeleted(e: Entry): Entry {
    if e.state == Deleted then Entry(e.entity.(IsDeleted := true), Modified) else e
  }

  /** The second pass: Added and Modified entries get LastModifiedAt, Added
      entries also CreatedAt. */
  function Stamped(e: Entry, now: Time): Entry {
    match e.state
    case Added => Entry(e.entity.(LastModifiedAt := now, CreatedAt := now), Added)
    case Modified => Entry(e.entity.(LastModifiedAt := now), Modified)
    case _ => e
  }

  /** base.SaveChanges: the pending changes are written and accepted. */
  function Accepted(e: Entry): Entry {
    Entry(e.entity, Unchanged)
  }

  /** The effect of SaveChanges on one entry, state by state. */
  function Saved(e: Entry, now: Time): (s: Entry)
    ensures s.state == Unchanged
    ensures s.entity.IsDeleted <==> e.entity.IsDeleted || e.state == Deleted
    ensures s.entity.LastModifiedAt == if e.state == Unchanged then e.entity.LastModifiedAt else now
    ensures s.entity.CreatedAt == if e.state == Added then now else e.entity.CreatedAt
    ensures s.entity.(IsDeleted := e.entity.IsDeleted, LastModifiedAt := e.entity.LastModifiedAt,
                      CreatedAt := e.entity.CreatedAt) == e.entity
    ensures e.state == Unchanged ==> s == e
  {
    Accepted(Stamped(SoftDeleted(e), now))
  }

  /** The effect of SaveChanges on the whole tracker. */
  function SaveAll(es: seq<Entry>, now: Time): seq<Entry> {
    seq(|es|, i requires 0 <= i < |es| => Saved(es[i], now))
  }

  /** An entry with a change that SaveChanges writes. */
  predicate IsChanged(e: Entry) {
    e.state != Unchanged
  }

  /** DbSet.Remove: the tracked entity with the key of `id` is marked Deleted. */
  function MarkDeleted(es: seq<Entry>, id: int): seq<Entry> {
    match KeyIndex(es, id)
    case None => es
    case Some(i) => es[i := Entry(es[i].entity, Deleted)]
  }

  /** A caller writing the properties of the tracked entity with key `id` in
      place; change detection marks it Modified when its values changed. */
  function WithChanges(es: seq<Entry>, id: int, f: Request -> Request): seq<Entry> {
    match KeyIndex(es, id)
    case None => es
    case Some(i) =>
      var after := f(es[i].entity);
      if after == es[i].entity then es
      else es[i := Entry(after, if es[i].state == Unchanged then Modified else es[i].state)]
  }

  /** SaveChanges never removes a row and, over a tracker with nothing
      pending, changes nothing. */
  lemma SaveAllKeepsRows(es: seq<Entry>, now: Time)
    ensures |SaveAll(es, now)| == |es|
    ensures AllUnchanged(es) ==> SaveAll(es, now) == es
    ensures AllUnchanged(SaveAll(es, now))
    ensures forall i :: 0 <= i < |es| ==> SaveAll(es, now)[i].entity.Id == es[i].entity.Id
  {
  }

  /** A soft delete keeps the row stored but hides it from every later read;
      over a tracker with nothing else pending, no other row changes visibility. */
  lemma {:induction false} SoftDeleteHides(es: seq<Entry>, id: int, now: Time)
    requires UniqueKeys(es)
    requires KeyIndex(es, id).Some?
    ensures var s := SaveAll(MarkDeleted(es, id), now);
      && |s| == |es|
      && s[KeyIndex(es, id).value].entity.IsDeleted
      && (forall r :: r in Query(s) ==> r.Id != id)
    ensures AllUnchanged(es) ==>
      forall r :: r in Query(es) && r.Id != id ==> r in Query(SaveAll(MarkDeleted(es, id), now))
  {
    var i := KeyIndex(es, id).value;
    var m := MarkDeleted(es, id);
    var s := SaveAll(m, now);
    assert m == es[i := Entry(es[i].entity, Deleted)];
    forall r | r in Query(s) ensures r.Id != id {
      var j :| 0 <= j < |s| && s[j].entity == r;
      assert s[i].entity.IsDeleted && NotDeleted(r);
      assert j != i;
      assert s[j].entity.Id == es[j].entity.Id != es[i].entity.Id;
    }
    if AllUnchanged(es) {
      forall r | r in Query(es) && r.Id != id ensures r in Query(s) {
        var j :| 0 <= j < |es| && es[j].entity == r;
        assert j != i;
        assert s[j] == es[j];
      }
    }
  }

  /** A row returned by a read is the tracked entity with that key. */
  lemma QueryRowIsTracked(es: seq<Entry>, r: Request)
    requires UniqueKeys(es) && r in Query(es)
    ensures KeyIndex(es, r.Id).Some?
    ensures es[KeyIndex(es, r.Id).value].entity == r
  {
  }

  /** With unique keys no read of the table returns the same row twice. */
  lemma QueryDistinct(es: seq<Entry>)
    requires UniqueKeys(es)
    ensures Distinct(Query(es))
  {
    var all := Rows(es);
    assert Distinct(all) by {
      forall i, j | 0 <= i < j < |all| ensures all[i] != all[j] {
        assert all[i].Id == es[i].entity.Id && all[j].Id == es[j].entity.Id;
      }
    }
    WhereDistinct(all, NotDeleted);
  }

  /** The three passes of SaveChanges, entry by entry, compose to SaveAll;
      they keep every key and the number of entries with a pending change. */
  lemma SaveChangesPasses(original: seq<Entry>, deleted: seq<Entry>, stamped: seq<Entry>,
                          accepted: seq<Entry>, now: Time)
    requires |deleted| == |original| && |stamped| == |original| && |accepted| == |original|
    requires forall k :: 0 <= k < |original| ==> deleted[k] == SoftDeleted(original[k])
    requires forall k :: 0 <= k < |original| ==> stamped[k] == Stamped(deleted[k], now)
    requires forall k :: 0 <= k < |original| ==> accepted[k] == Accepted(stamped[k])
    ensures accepted == SaveAll(original, now)
    ensures |Where(stamped, IsChanged)| == |Where(original, IsChanged)|
    ensures forall k :: 0 <= k < |original| ==> accepted[k].entity.Id == original[k].entity.Id
    ensures UniqueKeys(original) ==> UniqueKeys(accepted)
  {
    assert forall k :: 0 <= k < |original| ==> accepted[k] == Saved(original[k], now);
    WhereCountAgrees(original, stamped, IsChanged);
    SaveAllKeepsRows(original, now);
    if UniqueKeys(original) {
      KeysCarryOver(original, accepted);
    }
  }

  /** The process-wide static `ConnectionString`. */
  class ConnectionSettings {
    var ConnectionString: Option<string>

    constructor (connectionString: Option<string>)
      ensures ConnectionString == connectionString
    {
      ConnectionString := connectionString;
    }
  }

  /** The CLR type of a mapped property. */
  datatype ClrType = BoolType | IntType | StringType | DateTimeType | NullableDateTimeType

  datatype Property = Property(Name: string, Type: ClrType)

  /** A query filter `p => !p.<Name>` on a bool property. */
  datatype QueryFilter = NotProperty(Name: string)

  /** An entity type as the model builder sees it. */
  datatype EntityType = EntityType(Name: string, Properties: seq<Property>, Filter: Option<QueryFilter>)

  /** `IEntityType.FindProperty`: the property with that name, if any. */
  function FindProperty(properties: seq<Property>, name: string): (r: Option<Property>)
    ensures r.Some? ==> r.value in properties && r.value.Name == name
    ensures r.None? <==> forall i :: 0 <= i < |properties| ==> properties[i].Name != name
  {
    if properties == [] then None
    else if properties[0].Name == name then Some(properties[0])
    else FindProperty(properties[1..], name)
  }

  /** An entity type with a bool IsDeleted property. */
  predicate HasBoolIsDeleted(t: EntityType) {
    var p := FindProperty(t.Properties, "IsDeleted");
    p.Some? && p.value.Type == BoolType
  }

  /** The Requests entity type: BaseEntity's columns and Request's own. */
  const RequestEntityType := EntityType("Request", [
    Property("Id", IntType), Property("IsDeleted", BoolType),
    Property("CreatedAt", DateTimeType), Property("LastModifiedAt", DateTimeType),
    Property("RequestIdentifier", StringType), Property("DatastoreIdentifier", StringType),
    Property("SuccessfullyRun", BoolType), Property("CompletedAt", NullableDateTimeType),
    Property("FilePath", StringType)], None)

  /** The Request entity type gets the `!IsDeleted` filter, which is `NotDeleted`. */
  lemma RequestEntityTypeIsFiltered()
    ensures HasBoolIsDeleted(RequestEntityType)
    ensures forall r: Request :: Holds(NotProperty("IsDeleted"), r) == NotDeleted(r)
  {
  }

  /** What a query filter says about a Request row. */
  predicate Holds(f: QueryFilter, r: Request) {
    match f.Name
    case "IsDeleted" => !r.IsDeleted
    case _ => true
  }

  /** The model builder's entity types. */
  class ModelBuilder {
    var EntityTypes: seq<EntityType>

    constructor (types: seq<EntityType>)
      ensures EntityTypes == types
    {
      EntityTypes := types;
    }
  }

  /** The database context: the table with its change tracker. Every row is
      tracked, so `entries` is both the table and the tracker; `nextId` is the
      seed of the identity column. */
  class DatabaseContext {
    var entries: seq<Entry>
    var nextId: int

    ghost predicate Valid()
      reads this
    {
      KeysBelow(entries, nextId)
    }

    /** No change is waiting for SaveChanges. */
    ghost predicate Settled()
      reads this
    {
      AllUnchanged(entries)
    }

    /** Stores `connectionString` as the process-wide connection string unless
        it is null or empty. The context opens the stored Requests table, whose
        keys are distinct and below the identity seed; its tracker starts with
        no pending change. */
    constructor (settings: ConnectionSettings, connectionString: Option<string>,
                 stored: seq<Request>, identitySeed: int)
      requires 0 < identitySeed
      requires forall i :: 0 <= i < |stored| ==> 0 < stored[i].Id < identitySeed
      requires forall i, j :: 0 <= i < j < |stored| ==> stored[i].Id != stored[j].Id
      modifies settings
      ensures Valid() && Settled()
      ensures Rows(entries) == stored && nextId == identitySeed
      ensures settings.ConnectionString ==
        if connectionString.Some? && connectionString.value != "" then connectionString
        else old(settings.ConnectionString)
    {
      var tracked := seq(|stored|, i requires 0 <= i < |stored| => Entry(stored[i], Unchanged));
      assert Rows(tracked) == stored;
      entries := tracked;
      nextId := identitySeed;
      if connectionString.Some? && connectionString.value != "" {
        settings.ConnectionString := connectionString;
      }
    }

    /** Installs the `!IsDeleted` query filter on every entity type that has a
        bool IsDeleted property; the other entity types are left alone. */
    method OnModelCreating(modelBuilder: ModelBuilder)
      modifies modelBuilder
      ensures |modelBuilder.EntityTypes| == |old(modelBuilder.EntityTypes)|
      ensures forall k :: 0 <= k < |modelBuilder.EntityTypes| ==>
        var t := old(modelBuilder.EntityTypes)[k];
        modelBuilder.EntityTypes[k] ==
          if HasBoolIsDeleted(t) then t.(Filter := Some(NotProperty("IsDeleted"))) else t
    {
      var k := 0;
      while k < |modelBuilder.EntityTypes|
        invariant 0 <= k <= |modelBuilder.EntityTypes| == |old(modelBuilder.EntityTypes)|
        invariant forall j :: 0 <= j < k ==>
          var t := old(modelBuilder.EntityTypes)[j];
          modelBuilder.EntityTypes[j] ==
            if HasBoolIsDeleted(t) then t.(Filter := Some(NotProperty("IsDeleted"))) else t
        invariant forall j :: k <= j < |modelBuilder.EntityTypes| ==>
          modelBuilder.EntityTypes[j] == old(modelBuilder.EntityTypes)[j]
      {
        var entityType := modelBuilder.EntityTypes[k];
        var isDeletedProperty := FindProperty(entityType.Properties, "IsDeleted");
        if isDeletedProperty.Some? && isDeletedProperty.value.Type == BoolType {
          modelBuilder.EntityTypes := modelBuilder.EntityTypes[k := entityType.(Filter := Some(NotProperty("IsDeleted")))];
        }
        k := k + 1;
      }
    }

    /** DbSet.Add: the entity is tracked as Added, under the next identity value. */
    method Add(entity: Request)
      requires Valid()
      modifies this
      ensures Valid() && nextId == old(nextId) + 1
      ensures entries == old(entries) + [Entry(entity.(Id := old(nextId)), Added)]
    {
      entries := entries + [Entry(entity.(Id := nextId), Added)];
      nextId := nextId + 1;
    }

    /** DbSet.Remove: the tracked entity with that key is marked Deleted. */
    method Remove(entity: Request)
      requires Valid()
      modifies this
      ensures Valid() && nextId == old(nextId)
      ensures entries == MarkDeleted(old(entries), entity.Id)
    {
      var k := KeyIndex(entries, entity.Id);
      if k.Some? {
        entries := entries[k.value := Entry(entries[k.value].entity, Deleted)];
      }
    }

    /** Property writes on the tracked entity with key `id`, seen by change detection. */
    method Modify(id: int, f: Request -> Request)
      requires Valid()
      requires KeyIndex(entries, id).Some? ==> f(entries[KeyIndex(entries, id).value].entity).Id == id
      modifies this
      ensures Valid() && nextId == old(nextId)
      ensures entries == WithChanges(old(entries), id, f)
    {
      var k := KeyIndex(entries, id);
      if k.Some? {
        var i := k.value;
        var after := f(entries[i].entity);
        if after != entries[i].entity {
          var state := if entries[i].state == Unchanged then Modified else entries[i].state;
          entries := entries[i := Entry(after, state)];
        }
      }
    }

    /** Soft-deletes, stamps and writes every pending change; returns the
        number of entries written. */
    method SaveChanges(now: Time) returns (written: nat)
      requires Valid()
      modifies this
      ensures Valid() && nextId == old(nextId)
      ensures entries == SaveAll(old(entries), now)
      ensures written == |Where(old(entries), IsChanged)|
    {
      var n := |entries|;
      ghost var original := entries;
      // Deleted entries become Modified ones with IsDeleted set.
      for i := 0 to n
        invariant |entries| == n && nextId == old(nextId)
        invariant forall k :: 0 <= k < i ==> entries[k] == SoftDeleted(original[k])
        invariant forall k :: i <= k < n ==> entries[k] == original[k]
      {
        if entries[i].state == Deleted {
          entries := entries[i := Entry(entries[i].entity.(IsDeleted := true), Modified)];
        }
      }
      ghost var deleted := entries;
      // Audit timestamps of Added and Modified entries.
      for i := 0 to n
        invariant |entries| == n && nextId == old(nextId)
        invariant forall k :: 0 <= k < i ==> entries[k] == Stamped(deleted[k], now)
        invariant forall k :: i <= k < n ==> entries[k] == deleted[k]
      {
        var e := entries[i];
        if e.state == Added || e.state == Modified {
          var stamped := e.entity.(LastModifiedAt := now);
          if e.state == Added {
            stamped := stamped.(CreatedAt := now);
          }
          entries := entries[i := Entry(stamped, e.state)];
        }
      }
      ghost var stamped := entries;
      // base.SaveChanges: write and accept.
      written := |Where(entries, IsChanged)|;
      for i := 0 to n
        invariant |entries| == n && nextId == old(nextId)
        invariant forall k :: 0 <= k < i ==> entries[k] == Accepted(stamped[k])
        invariant forall k :: i <= k < n ==> entries[k] == stamped[k]
      {
        entries := entries[i := Accepted(entries[i])];
      }
      SaveChangesPasses(original, deleted, stamped, entries, now);
    }
  }

  /** DataContextFactory.CreateDbContext: the configured "DefaultConnection"
      becomes the process-wide connection string of a new context over the
      stored table. */
  method CreateDbContext(settings: ConnectionSettings, defaultConnection: Option<string>,
                         stored: seq<Request>, identitySeed: int)
    returns (context: DatabaseContext)
    requires 0 < identitySeed
    requires forall i :: 0 <= i < |stored| ==> 0 < stored[i].Id < identitySeed
    requires forall i, j :: 0 <= i < j < |stored| ==> stored[i].Id != stored[j].Id
    modifies settings
    ensures fresh(context) && context.Valid() && context.Settled()
    ensures Rows(context.entries) == stored && context.nextId == identitySeed
    ensures settings.ConnectionString == defaultConnection
  {
    settings.ConnectionString := defaultConnection;
    context := new DatabaseContext(settings, defaultConnection, stored, identitySeed);
  }
}
