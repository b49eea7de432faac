/** The export queue: intake of requests and the processor that takes the
    oldest pending request, fetches its document from the secure data store,
    decodes it, writes it to the output folder and records the outcome. The
    data store client, the Base64 decoder, the file system, the clock and the
    GUID generator are inputs. */
module Business {
  import opened Wrappers
  import opened Entities
  import opened Linq
  import opened Database
  import opened Repositories

  /** The request body: the identifiers of the documents to export; an element may be null. */
  datatype RequestModel = RequestModel(DatastoreIdentifiers: seq<Option<string>>)

  /** The secure data store's file model: a name and a transport-encoded content that may be null. */
  datatype StoreFile = StoreFile(FileName: string, Content: Option<string>)

  /** What `GetFileByIdentifier` does for one identifier: it throws, or it
      returns a file model, which may be null. */
  datatype Fetch = FetchThrew | Fetched(File: Option<StoreFile>)

  /** What `LoadFileFromSDS` does: it throws, returns null, or returns the file
      with its content decoded. */
  datatype Load = LoadThrew | LoadNull | Loaded(FileName: string, Content: string)

  /** What one processing run wrote: nothing, or one file. */
  datatype Export = ExportFailed | Exported(Path: string, Content: string)

  /** A fetch that returned no model or a model without content. */
  predicate NoContent(f: Fetch) {
    f.Fetched? && (f.File.None? || f.File.value.Content.None?)
  }

  /** Loads and decodes the document behind `datastoreIdentifier`. Only a null
      identifier, a null model or a null content give null; an empty content
      is loaded like any other. A throwing fetch or decode propagates. */
  function LoadFileFromSDS(datastoreIdentifier: Option<string>, sds: string -> Fetch,
                           decode: string -> Option<string>): (r: Load)
    ensures r.LoadNull? <==> datastoreIdentifier.None? || NoContent(sds(datastoreIdentifier.value))
    ensures r.LoadThrew? <==>
      && datastoreIdentifier.Some?
      && var f := sds(datastoreIdentifier.value);
      || f.FetchThrew?
      || (f.File.Some? && f.File.value.Content.Some? && decode(f.File.value.Content.value).None?)
    ensures r.Loaded? ==>
      && datastoreIdentifier.Some?
      && var f := sds(datastoreIdentifier.value);
      && f.Fetched? && f.File.Some? && f.File.value.Content.Some?
      && r.FileName == f.File.value.FileName
      && decode(f.File.value.Content.value) == Some(r.Content)
  {
    if datastoreIdentifier.None? then LoadNull
    else
      match sds(datastoreIdentifier.value)
      case FetchThrew => LoadThrew
      case Fetched(file) =>
        if file.None? || file.value.Content.None? then LoadNull
        else
          match decode(file.value.Content.value)
          case None => LoadThrew
          case Some(decoded) => Loaded(file.value.FileName, decoded)
  }

  /** `Path.Combine` with '/' as the separator: a rooted second part replaces
      the first; otherwise the parts are joined by one separator. The second
      part always ends the result. */
  function Combine(directory: string, name: string): (path: string)
    ensures |name| <= |path| && path[|path| - |name|..] == name
  {
    if name == "" then directory
    else if directory == "" || name[0] == '/' then name
    else if directory[|directory| - 1] == '/' then directory + name
    else directory + "/" + name
  }

  /** The output file name `{RequestIdentifier}_{FileName}.json`. */
  function OutputFileName(requestIdentifier: string, fileName: string): string {
    requestIdentifier + "_" + fileName + ".json"
  }

  /** Two requests whose identifiers are distinct GUID strings of one length
      never share an output file name, whatever the remote file names. */
  lemma OutputFileNamesDistinct(rid1: string, rid2: string, fileName1: string, fileName2: string)
    requires |rid1| == |rid2| && rid1 != rid2
    ensures OutputFileName(rid1, fileName1) != OutputFileName(rid2, fileName2)
  {
    assert OutputFileName(rid1, fileName1)[..|rid1|] == rid1;
    assert OutputFileName(rid2, fileName2)[..|rid2|] == rid2;
  }

  /** Within one output directory, two distinct relative names that are not
      rooted give two distinct paths. */
  lemma CombineDistinct(directory: string, name1: string, name2: string)
    requires name1 != name2 && name1 != "" && name2 != ""
    requires name1[0] != '/' && name2[0] != '/'
    ensures Combine(directory, name1) != Combine(directory, name2)
  {
    var p1, p2 := Combine(directory, name1), Combine(directory, name2);
    if directory != "" {
      var prefix := if directory[|directory| - 1] == '/' then directory else directory + "/";
      assert p1 == prefix + name1 && p2 == prefix + name2;
      assert p1[|prefix|..] == name1 && p2[|prefix|..] == name2;
    }
  }

  /** Requests with distinct GUID identifiers of one length, which never hold
      a '/', never write to the same path of the output directory. */
  lemma OutputPathsDistinct(directory: string, rid1: string, rid2: string, fileName1: string, fileName2: string)
    requires |rid1| == |rid2| && rid1 != rid2
    requires '/' !in rid1 && '/' !in rid2
    ensures Combine(directory, OutputFileName(rid1, fileName1)) != Combine(directory, OutputFileName(rid2, fileName2))
  {
    var n1, n2 := OutputFileName(rid1, fileName1), OutputFileName(rid2, fileName2);
    OutputFileNamesDistinct(rid1, rid2, fileName1, fileName2);
    assert n1[0] == rid1[0] && n2[0] == rid2[0];
    CombineDistinct(directory, n1, n2);
  }

  /** The file one processing run writes for `r`, if any. */
  function ExportOf(r: Request, directory: string, sds: string -> Fetch,
                    decode: string -> Option<string>, writeOk: bool): Export {
    match LoadFileFromSDS(r.DatastoreIdentifier, sds, decode)
    case Loaded(name, content) =>
      if writeOk then Exported(Combine(directory, OutputFileName(r.RequestIdentifier, name)), content)
      else ExportFailed
    case _ => ExportFailed
  }

  /** UpdateFailedRequest's property writes. */
  function MarkFailed(now: Time): Request -> Request {
    (r: Request) => r.(SuccessfullyRun := false, CompletedAt := Some(now))
  }

  /** ProcessRequest's property writes after a successful write. */
  function MarkSucceeded(now: Time, path: string): Request -> Request {
    (r: Request) => r.(SuccessfullyRun := true, CompletedAt := Some(now), FilePath := Some(path))
  }

  /** The row after processing, before SaveChanges stamps it. */
  function Completed(r: Request, x: Export, now: Time): Request {
    match x
    case ExportFailed => MarkFailed(now)(r)
    case Exported(path, _) => MarkSucceeded(now, path)(r)
  }

  /** `OrderBy(m => m.CreatedAt).FirstOrDefault()`: the position of the first
      row with the least creation time (the ordering is stable). */
  function FirstByCreatedAt(s: seq<Request>): (k: Option<nat>)
    ensures k.None? <==> s == []
    ensures k.Some? ==> k.value < |s|
    ensures k.Some? ==> forall j :: 0 <= j < |s| ==> s[k.value].CreatedAt <= s[j].CreatedAt
    ensures k.Some? ==> forall j :: 0 <= j < k.value ==> s[k.value].CreatedAt < s[j].CreatedAt
  {
    if s == [] then None
    else
      match FirstByCreatedAt(s[1..])
      case None => Some(0)
      case Some(t) => if s[0].CreatedAt <= s[t + 1].CreatedAt then Some(0) else Some(t + 1)
  }

  /** The pending rows every read sees, in table order. */
  function PendingRows(es: seq<Entry>): seq<Request> {
    Where(Query(es), IsPending)
  }

  /** The request ProcessRequest picks: a visible pending row whose creation
      time is least among all visible pending rows, if there is one. */
  function SelectNext(es: seq<Entry>): (r: Option<Request>)
    ensures r.None? <==> forall x :: x in Query(es) ==> !IsPending(x)
    ensures r.Some? ==> r.value in Query(es) && IsPending(r.value)
    ensures r.Some? ==> forall x :: x in Query(es) && IsPending(x) ==> r.value.CreatedAt <= x.CreatedAt
  {
    var pending := PendingRows(es);
    assert pending != [] ==> pending[0] in pending;
    match FirstByCreatedAt(pending)
    case None => None
    case Some(k) =>
      assert forall x :: x in pending ==> exists j :: 0 <= j < |pending| && pending[j] == x;
      Some(pending[k])
  }

  /** The table after one ProcessRequest over a tracker with nothing pending. */
  function NextTable(es: seq<Entry>, directory: string, sds: string -> Fetch,
                     decode: string -> Option<string>, writeOk: bool, now: Time): seq<Entry> {
    match SelectNext(es)
    case None => es
    case Some(r) =>
      match KeyIndex(es, r.Id)
      case None => es
      case Some(i) =>
        es[i := Entry(Completed(r, ExportOf(r, directory, sds, decode, writeOk), now).(LastModifiedAt := now), Unchanged)]
  }

  /** The output folder after one ProcessRequest. */
  function NextFiles(files: map<string, string>, es: seq<Entry>, directory: string, sds: string -> Fetch,
                     decode: string -> Option<string>, writeOk: bool): map<string, string> {
    match SelectNext(es)
    case None => files
    case Some(r) =>
      match ExportOf(r, directory, sds, decode, writeOk)
      case Exported(path, content) => files[path := content]
      case ExportFailed => files
  }

  /** The row a new request becomes once Create has saved it. */
  function QueuedRow(id: int, datastoreIdentifier: Option<string>, requestIdentifier: string, now: Time): Request {
    Request(id, false, now, now, requestIdentifier, datastoreIdentifier, false, None, None)
  }

  /** The rows AddRequest appends, one per identifier, with consecutive keys. */
  function Queued(identifiers: seq<Option<string>>, guids: seq<string>, clock: seq<Time>, firstId: int): seq<Entry>
    requires |guids| == |identifiers| && |clock| == |identifiers|
  {
    seq(|identifiers|, k requires 0 <= k < |identifiers| =>
      Entry(QueuedRow(firstId + k, identifiers[k], guids[k], clock[k]), Unchanged))
  }

  /** The rows queued for one more identifier are those for the shorter
      list followed by the new row. */
  lemma QueuedStep(identifiers: seq<Option<string>>, guids: seq<string>, clock: seq<Time>, firstId: int, k: nat)
    requires |guids| == |identifiers| && |clock| == |identifiers| && k < |identifiers|
    ensures Queued(identifiers[..k + 1], guids[..k + 1], clock[..k + 1], firstId) ==
      Queued(identifiers[..k], guids[..k], clock[..k], firstId) +
        [Entry(QueuedRow(firstId + k, identifiers[k], guids[k], clock[k]), Unchanged)]
  {
  }

  /** Saving one in-place change to the tracked row `r`, over a tracker with
      nothing else pending, replaces that row alone. */
  lemma SaveOneChange(es: seq<Entry>, r: Request, f: Request -> Request, now: Time)
    requires UniqueKeys(es) && AllUnchanged(es) && r in Query(es)
    requires f(r) != r
    ensures KeyIndex(es, r.Id).Some?
    ensures SaveAll(WithChanges(es, r.Id, f), now) ==
      es[KeyIndex(es, r.Id).value := Entry(f(r).(LastModifiedAt := now), Unchanged)]
  {
  }

  /** With `r` selected, a run replaces the row with key `r.Id` by its
      completed, stamped version. */
  lemma NextTableSelected(es: seq<Entry>, r: Request, directory: string, sds: string -> Fetch,
                          decode: string -> Option<string>, writeOk: bool, now: Time)
    requires UniqueKeys(es) && SelectNext(es) == Some(r)
    ensures KeyIndex(es, r.Id).Some? && es[KeyIndex(es, r.Id).value].entity == r
    ensures NextTable(es, directory, sds, decode, writeOk, now) ==
      es[KeyIndex(es, r.Id).value :=
           Entry(Completed(r, ExportOf(r, directory, sds, decode, writeOk), now).(LastModifiedAt := now), Unchanged)]
  {
    QueryRowIsTracked(es, r);
  }

  /** A successful run, written through the tracked row, yields NextTable. */
  lemma ProcessSucceededTable(es: seq<Entry>, r: Request, directory: string, sds: string -> Fetch,
                              decode: string -> Option<string>, writeOk: bool, now: Time)
    requires UniqueKeys(es) && AllUnchanged(es) && SelectNext(es) == Some(r)
    requires ExportOf(r, directory, sds, decode, writeOk).Exported?
    ensures var p := ExportOf(r, directory, sds, decode, writeOk).Path;
      var t := SaveAll(WithChanges(es, r.Id, MarkSucceeded(now, p)), now);
      t == NextTable(es, directory, sds, decode, writeOk, now) && AllUnchanged(t)
  {
    var x := ExportOf(r, directory, sds, decode, writeOk);
    var f := MarkSucceeded(now, x.Path);
    assert f(r).CompletedAt != r.CompletedAt;
    SaveOneChange(es, r, f, now);
    NextTableSelected(es, r, directory, sds, decode, writeOk, now);
    assert Completed(r, x, now) == f(r);
    SaveAllKeepsRows(WithChanges(es, r.Id, f), now);
  }

  /** Marking a request failed a second time, in the same call, changes nothing. */
  lemma MarkFailedAgain(es: seq<Entry>, r: Request, now: Time)
    requires UniqueKeys(es) && AllUnchanged(es) && r in Query(es) && IsPending(r)
    ensures var once := SaveAll(WithChanges(es, r.Id, MarkFailed(now)), now);
      SaveAll(WithChanges(once, r.Id, MarkFailed(now)), now) == once
  {
    var f := MarkFailed(now);
    assert f(r).CompletedAt != r.CompletedAt;
    SaveOneChange(es, r, f, now);
    var i := KeyIndex(es, r.Id).value;
    var m := f(r).(LastModifiedAt := now);
    var once := es[i := Entry(m, Unchanged)];
    assert forall j :: 0 <= j < |es| ==> once[j].entity.Id == es[j].entity.Id;
    assert KeyIndex(once, r.Id) == Some(i);
    assert f(m) == m;
    assert WithChanges(once, r.Id, f) == once;
    SaveAllKeepsRows(once, now);
  }

  /** A failed run yields NextTable, whether the row was already marked failed
      once (a null load) or not: marking it again changes nothing. */
  lemma ProcessFailedTable(es: seq<Entry>, mid: seq<Entry>, r: Request, directory: string, sds: string -> Fetch,
                           decode: string -> Option<string>, writeOk: bool, now: Time)
    requires UniqueKeys(es) && AllUnchanged(es) && SelectNext(es) == Some(r)
    requires ExportOf(r, directory, sds, decode, writeOk).ExportFailed?
    requires mid == if LoadFileFromSDS(r.DatastoreIdentifier, sds, decode).LoadNull?
                    then SaveAll(WithChanges(es, r.Id, MarkFailed(now)), now) else es
    ensures var t := SaveAll(WithChanges(mid, r.Id, MarkFailed(now)), now);
      t == NextTable(es, directory, sds, decode, writeOk, now) && AllUnchanged(t)
  {
    var x := ExportOf(r, directory, sds, decode, writeOk);
    var f := MarkFailed(now);
    assert f(r).CompletedAt != r.CompletedAt;
    SaveOneChange(es, r, f, now);
    NextTableSelected(es, r, directory, sds, decode, writeOk, now);
    assert Completed(r, x, now) == f(r);
    SaveAllKeepsRows(WithChanges(es, r.Id, f), now);
    if mid != es {
      MarkFailedAgain(es, r, now);
    }
  }

  /** The selection is the earliest of the rows the pending read returns. */
  lemma SelectNextIsFirst(es: seq<Entry>)
    ensures var k := FirstByCreatedAt(PendingRows(es));
      SelectNext(es) == if k.None? then None else Some(PendingRows(es)[k.value])
  {
  }

  /** With nothing pending, a run changes neither the table nor the folder. */
  lemma ProcessIdle(es: seq<Entry>, files: map<string, string>, directory: string, sds: string -> Fetch,
                    decode: string -> Option<string>, writeOk: bool, now: Time)
    requires SelectNext(es).None?
    ensures NextTable(es, directory, sds, decode, writeOk, now) == es
    ensures NextFiles(files, es, directory, sds, decode, writeOk) == files
  {
  }

  /** With a request selected, the folder gains the exported file, if any. */
  lemma ProcessFiles(es: seq<Entry>, files: map<string, string>, r: Request, directory: string,
                     sds: string -> Fetch, decode: string -> Option<string>, writeOk: bool)
    requires SelectNext(es) == Some(r)
    ensures var x := ExportOf(r, directory, sds, decode, writeOk);
      NextFiles(files, es, directory, sds, decode, writeOk) ==
        if x.Exported? then files[x.Path := x.Content] else files
  {
  }

  /** One run completes the selected row and touches no other row. */
  lemma ProcessCompletesSelected(es: seq<Entry>, directory: string, sds: string -> Fetch,
                                 decode: string -> Option<string>, writeOk: bool, now: Time)
    requires UniqueKeys(es) && SelectNext(es).Some?
    ensures var r := SelectNext(es).value;
      var x := ExportOf(r, directory, sds, decode, writeOk);
      var t := NextTable(es, directory, sds, decode, writeOk, now);
      && KeyIndex(es, r.Id).Some?
      && var i := KeyIndex(es, r.Id).value;
      && es[i].entity == r
      && |t| == |es|
      && (forall j :: 0 <= j < |es| && j != i ==> t[j] == es[j])
      && t[i].entity.CompletedAt == Some(now)
      && (t[i].entity.SuccessfullyRun <==> x.Exported?)
      && t[i].entity.FilePath == (if x.Exported? then Some(x.Path) else r.FilePath)
      && t[i].entity.LastModifiedAt == now
      && t[i].entity.(SuccessfullyRun := r.SuccessfullyRun, CompletedAt := r.CompletedAt,
                      FilePath := r.FilePath, LastModifiedAt := r.LastModifiedAt) == r
  {
  }

  /** A run fails, leaving FilePath alone and writing no file, exactly when
      the identifier is null, the store returns no model or no content, the
      fetch or the decode throws, or the write throws. */
  lemma ExportFailsExactly(r: Request, directory: string, sds: string -> Fetch,
                           decode: string -> Option<string>, writeOk: bool)
    ensures ExportOf(r, directory, sds, decode, writeOk).ExportFailed? <==>
      || r.DatastoreIdentifier.None?
      || NoContent(sds(r.DatastoreIdentifier.value))
      || sds(r.DatastoreIdentifier.value).FetchThrew?
      || decode(sds(r.DatastoreIdentifier.value).File.value.Content.value).None?
      || !writeOk
  {
  }

  /** On success the file is written under `{RequestIdentifier}_{FileName}.json`
      in the output directory, holding the decoded content. */
  lemma ExportWritesDecodedContent(r: Request, directory: string, sds: string -> Fetch,
                                   decode: string -> Option<string>, writeOk: bool)
    requires ExportOf(r, directory, sds, decode, writeOk).Exported?
    ensures var x := ExportOf(r, directory, sds, decode, writeOk);
      var f := sds(r.DatastoreIdentifier.value).File.value;
      && x.Path == Combine(directory, OutputFileName(r.RequestIdentifier, f.FileName))
      && decode(f.Content.value) == Some(x.Content)
  {
  }

  /** Content the store encoded with `encode`, decoded by an inverse `decode`,
      reaches the output file unchanged; an empty content is no failure. */
  lemma ExportRoundTrip(r: Request, directory: string, sds: string -> Fetch, encode: string -> string,
                        decode: string -> Option<string>, name: string, content: string)
    requires r.DatastoreIdentifier.Some?
    requires sds(r.DatastoreIdentifier.value) == Fetched(Some(StoreFile(name, Some(encode(content)))))
    requires decode(encode(content)) == Some(content)
    ensures ExportOf(r, directory, sds, decode, true) ==
      Exported(Combine(directory, OutputFileName(r.RequestIdentifier, name)), content)
  {
  }

  /** Replacing a visible pending row by a completed one shortens the pending
      queue by one. */
  lemma PendingDropsOne(es: seq<Entry>, i: nat, e: Entry)
    requires i < |es| && NotDeleted(es[i].entity) && IsPending(es[i].entity) && !IsPending(e.entity)
    ensures |PendingRows(es[i := e])| + 1 == |PendingRows(es)|
  {
    var both := (x: Request) => NotDeleted(x) && IsPending(x);
    assert Rows(es[i := e]) == Rows(es)[i := e.entity];
    WhereWhere(Rows(es), NotDeleted, IsPending, both);
    WhereWhere(Rows(es[i := e]), NotDeleted, IsPending, both);
    WhereUpdateDrops(Rows(es), i, e.entity, both);
  }

  /** Each productive run removes exactly one row from the pending queue. */
  lemma ProcessDrainsOne(es: seq<Entry>, directory: string, sds: string -> Fetch,
                         decode: string -> Option<string>, writeOk: bool, now: Time)
    requires UniqueKeys(es) && SelectNext(es).Some?
    ensures |PendingRows(NextTable(es, directory, sds, decode, writeOk, now))| + 1 == |PendingRows(es)|
  {
    var r := SelectNext(es).value;
    NextTableSelected(es, r, directory, sds, decode, writeOk, now);
    var c := Completed(r, ExportOf(r, directory, sds, decode, writeOk), now).(LastModifiedAt := now);
    assert !IsPending(c);
    PendingDropsOne(es, KeyIndex(es, r.Id).value, Entry(c, Unchanged));
  }

  /** `t` is a later state of the table `es`: every row of `es` keeps its
      position and key, and a completed row stays completed. */
  ghost predicate KeepsCompleted(es: seq<Entry>, t: seq<Entry>) {
    && |es| <= |t|
    && forall i :: 0 <= i < |es| ==>
         t[i].entity.Id == es[i].entity.Id && (es[i].entity.CompletedAt.Some? ==> t[i].entity.CompletedAt.Some?)
  }

  /** A processing run keeps the table's keys and every completed row. */
  lemma NextTableKeepsCompleted(es: seq<Entry>, nextId: int, directory: string, sds: string -> Fetch,
                                decode: string -> Option<string>, writeOk: bool, now: Time)
    requires KeysBelow(es, nextId)
    ensures var t := NextTable(es, directory, sds, decode, writeOk, now);
      |t| == |es| && KeepsCompleted(es, t) && KeysBelow(t, nextId)
  {
    var t := NextTable(es, directory, sds, decode, writeOk, now);
    if SelectNext(es).Some? {
      ProcessCompletesSelected(es, directory, sds, decode, writeOk, now);
    }
    KeysCarryOver(es, t);
  }

  /** A row that is completed in a state of the table is never selected by a
      run over any later state. */
  lemma CompletedNeverSelected(es: seq<Entry>, t: seq<Entry>, i: nat)
    requires KeepsCompleted(es, t) && UniqueKeys(t)
    requires i < |es| && es[i].entity.CompletedAt.Some?
    ensures SelectNext(t).None? || SelectNext(t).value.Id != es[i].entity.Id
  {
    if SelectNext(t).Some? {
      var y := SelectNext(t).value;
      var j :| 0 <= j < |t| && t[j].entity == y;
      assert IsPending(t[j].entity) && !IsPending(t[i].entity);
      assert t[j].entity.Id != t[i].entity.Id;
    }
  }

  /** One operation on the queue: an intake, a processing run, or a soft
      delete through the repository. */
  datatype Step =
    | Intake(Identifiers: seq<Option<string>>, Guids: seq<string>, Clock: seq<Time>)
    | Process(Directory: string, Sds: string -> Fetch, Decode: string -> Option<string>, WriteOk: bool, Now: Time)
    | SoftDelete(Key: int, Now: Time)

  /** An intake comes with one GUID and one creation time per identifier. */
  predicate WellFormed(s: Step) {
    s.Intake? ==> |s.Guids| == |s.Identifiers| && |s.Clock| == |s.Identifiers|
  }

  /** The table and identity seed after one operation, as AddRequest,
      ProcessRequest and a successful or refused Delete leave them. */
  ghost function Apply(es: seq<Entry>, nextId: int, s: Step): (seq<Entry>, int)
    requires WellFormed(s)
  {
    match s
    case Intake(identifiers, guids, clock) =>
      (es + Queued(identifiers, guids, clock, nextId), nextId + |identifiers|)
    case Process(directory, sds, decode, writeOk, now) =>
      (NextTable(es, directory, sds, decode, writeOk, now), nextId)
    case SoftDelete(id, now) =>
      if id != 0 && exists j :: 0 <= j < |es| && es[j].entity.Id == id && NotDeleted(es[j].entity)
      then (SaveAll(MarkDeleted(es, id), now), nextId)
      else (es, nextId)
  }

  /** The table and identity seed after a sequence of operations. */
  ghost function Run(es: seq<Entry>, nextId: int, steps: seq<Step>): (seq<Entry>, int)
    requires forall k :: 0 <= k < |steps| ==> WellFormed(steps[k])
    decreases |steps|
  {
    if steps == [] then (es, nextId)
    else
      var next := Apply(es, nextId, steps[0]);
      Run(next.0, next.1, steps[1..])
  }

  /** Intake appends rows under fresh consecutive keys and keeps the identity invariant. */
  lemma IntakeKeepsKeys(es: seq<Entry>, nextId: int, identifiers: seq<Option<string>>,
                        guids: seq<string>, clock: seq<Time>)
    requires KeysBelow(es, nextId)
    requires |guids| == |identifiers| && |clock| == |identifiers|
    ensures KeysBelow(es + Queued(identifiers, guids, clock, nextId), nextId + |identifiers|)
  {
    var t := es + Queued(identifiers, guids, clock, nextId);
    assert forall i :: |es| <= i < |t| ==> t[i].entity.Id == nextId + (i - |es|);
  }

  /** A soft delete keeps every row in place with its key and completion time. */
  lemma SoftDeleteKeepsCompleted(es: seq<Entry>, nextId: int, id: int, now: Time)
    requires KeysBelow(es, nextId)
    ensures var t := SaveAll(MarkDeleted(es, id), now);
      |t| == |es| && KeepsCompleted(es, t) && KeysBelow(t, nextId)
  {
    var m := MarkDeleted(es, id);
    assert |m| == |es| && forall i :: 0 <= i < |es| ==> m[i].entity == es[i].entity;
    var t := SaveAll(m, now);
    SaveAllKeepsRows(m, now);
    assert forall i :: 0 <= i < |es| ==> t[i].entity.CompletedAt == es[i].entity.CompletedAt;
    KeysCarryOver(es, t);
  }

  /** Every operation keeps the identity invariant and every completed row. */
  lemma StepKeepsCompleted(es: seq<Entry>, nextId: int, s: Step)
    requires KeysBelow(es, nextId) && WellFormed(s)
    ensures KeysBelow(Apply(es, nextId, s).0, Apply(es, nextId, s).1)
    ensures KeepsCompleted(es, Apply(es, nextId, s).0)
  {
    match s
    case Intake(identifiers, guids, clock) =>
      IntakeKeepsKeys(es, nextId, identifiers, guids, clock);
    case Process(directory, sds, decode, writeOk, now) =>
      NextTableKeepsCompleted(es, nextId, directory, sds, decode, writeOk, now);
    case SoftDelete(id, now) =>
      SoftDeleteKeepsCompleted(es, nextId, id, now);
  }

  /** Over any sequence of operations, keys stay unique and completed rows stay completed. */
  lemma {:induction false} RunKeepsCompleted(es: seq<Entry>, nextId: int, steps: seq<Step>)
    requires KeysBelow(es, nextId)
    requires forall k :: 0 <= k < |steps| ==> WellFormed(steps[k])
    ensures KeysBelow(Run(es, nextId, steps).0, Run(es, nextId, steps).1)
    ensures KeepsCompleted(es, Run(es, nextId, steps).0)
    decreases |steps|
  {
    if steps != [] {
      var next := Apply(es, nextId, steps[0]);
      StepKeepsCompleted(es, nextId, steps[0]);
      RunKeepsCompleted(next.0, next.1, steps[1..]);
    }
  }

  /** A processed request is never selected again: not by the next run, nor
      by any run after further intakes, runs and deletes. */
  lemma NotSelectedAgain(es: seq<Entry>, nextId: int, directory: string, sds: string -> Fetch,
                         decode: string -> Option<string>, writeOk: bool, now: Time, later: seq<Step>)
    requires KeysBelow(es, nextId) && SelectNext(es).Some?
    requires forall k :: 0 <= k < |later| ==> WellFormed(later[k])
    ensures var t := Run(NextTable(es, directory, sds, decode, writeOk, now), nextId, later).0;
      SelectNext(t).None? || SelectNext(t).value.Id != SelectNext(es).value.Id
  {
    ProcessCompletesSelected(es, directory, sds, decode, writeOk, now);
    var i := KeyIndex(es, SelectNext(es).value.Id).value;
    var t1 := NextTable(es, directory, sds, decode, writeOk, now);
    NextTableKeepsCompleted(es, nextId, directory, sds, decode, writeOk, now);
    RunKeepsCompleted(t1, nextId, later);
    var t := Run(t1, nextId, later).0;
    CompletedNeverSelected(t1, t, i);
  }

  /** The rows AddRequest appends are visible and pending. */
  lemma QueuedRowsPending(identifiers: seq<Option<string>>, guids: seq<string>, clock: seq<Time>, firstId: int)
    requires |guids| == |identifiers| && |clock| == |identifiers|
    ensures var rows := Rows(Queued(identifiers, guids, clock, firstId));
      forall i :: 0 <= i < |rows| ==> NotDeleted(rows[i]) && IsPending(rows[i])
  {
  }

  /** The pending queue after AddRequest: the old one, then one pending row per
      submitted identifier, in list order, duplicates kept. */
  lemma AddRequestQueuesInOrder(es: seq<Entry>, identifiers: seq<Option<string>>,
                                guids: seq<string>, clock: seq<Time>, firstId: int)
    requires |guids| == |identifiers| && |clock| == |identifiers|
    ensures var q := Queued(identifiers, guids, clock, firstId);
      PendingRows(es + q) == PendingRows(es) + Rows(q)
  {
    var q := Queued(identifiers, guids, clock, firstId);
    var added := Rows(q);
    QueuedRowsPending(identifiers, guids, clock, firstId);
    RowsAppend(es, q);
    calc {
      Query(es + q);
      Where(Rows(es) + added, NotDeleted);
      { WhereAppend(Rows(es), added, NotDeleted); }
      Query(es) + Where(added, NotDeleted);
      { WhereIdentity(added, NotDeleted); }
      Query(es) + added;
    }
    calc {
      PendingRows(es + q);
      Where(Query(es) + added, IsPending);
      { WhereAppend(Query(es), added, IsPending); }
      PendingRows(es) + Where(added, IsPending);
      { WhereIdentity(added, IsPending); }
      PendingRows(es) + added;
    }
  }

  /** The export service: the repository over the Requests table, the output
      directory and what this model knows of the output folder. */
  class ExportManagement {
    const repo: DatabaseRepository
    const outputDirectory: string
    var outputDirectoryExists: bool
    var outputFiles: map<string, string>

    constructor (request: DatabaseRepository, outputDirectory: string,
                 directoryExists: bool, files: map<string, string>)
      ensures repo == request && this.outputDirectory == outputDirectory
      ensures outputDirectoryExists == directoryExists && outputFiles == files
    {
      repo := request;
      this.outputDirectory := outputDirectory;
      outputDirectoryExists := directoryExists;
      outputFiles := files;
    }

    /** Queues one pending row per identifier, each with the next supplied GUID
        and creation time; always reports no error. */
    method AddRequest(model: RequestModel, guids: seq<string>, clock: seq<Time>)
      returns (errorMessage: Option<string>)
      requires |guids| == |model.DatastoreIdentifiers| && |clock| == |model.DatastoreIdentifiers|
      requires repo.db.Valid() && repo.db.Settled()
      modifies repo.db
      ensures errorMessage == None
      ensures repo.db.Valid() && repo.db.Settled()
      ensures repo.db.nextId == old(repo.db.nextId) + |model.DatastoreIdentifiers|
      ensures repo.db.entries ==
        old(repo.db.entries) + Queued(model.DatastoreIdentifiers, guids, clock, old(repo.db.nextId))
    {
      errorMessage := None;
      var identifiers := model.DatastoreIdentifiers;
      ghost var es0 := repo.db.entries;
      ghost var id0 := repo.db.nextId;
      for k := 0 to |identifiers|
        invariant repo.db.Valid() && repo.db.Settled()
        invariant repo.db.nextId == id0 + k
        invariant repo.db.entries == es0 + Queued(identifiers[..k], guids[..k], clock[..k], id0)
      {
        var request := Request(0, false, 0, 0, guids[k], identifiers[k], false, None, None);
        CreateAppendsRow(repo.db.entries, request, repo.db.nextId, clock[k]);
        QueuedStep(identifiers, guids, clock, id0, k);
        var _ := repo.Create(Some(request), clock[k]);
      }
      assert identifiers[..|identifiers|] == identifiers;
      assert guids[..|identifiers|] == guids && clock[..|identifiers|] == clock;
    }

    /** Processes the oldest pending request, if any. */
    method ProcessRequest(sds: string -> Fetch, decode: string -> Option<string>, writeOk: bool, now: Time)
      requires repo.db.Valid() && repo.db.Settled()
      modifies this, repo.db
      ensures repo.db.Valid() && repo.db.Settled() && repo.db.nextId == old(repo.db.nextId)
      ensures repo.db.entries == NextTable(old(repo.db.entries), outputDirectory, sds, decode, writeOk, now)
      ensures outputFiles == NextFiles(old(outputFiles), old(repo.db.entries), outputDirectory, sds, decode, writeOk)
      ensures outputDirectoryExists == (old(outputDirectoryExists) || SelectNext(old(repo.db.entries)).Some?)
    {
      ghost var es := repo.db.entries;
      var allRequests := repo.ReadWhere(IsPending);
      assert allRequests == PendingRows(es);
      SelectNextIsFirst(es);
      var first := FirstByCreatedAt(allRequests);
      if first.None? {
        ProcessIdle(es, outputFiles, outputDirectory, sds, decode, writeOk, now);
        return;
      }
      var request := allRequests[first.value];
      outputDirectoryExists := true;
      ExportAndRecord(request, sds, decode, writeOk, now);
    }

    /** The rest of ProcessRequest once `request` is selected: write its file
        and record the outcome on its row. */
    method ExportAndRecord(request: Request, sds: string -> Fetch, decode: string -> Option<string>,
                           writeOk: bool, now: Time)
      requires repo.db.Valid() && repo.db.Settled() && SelectNext(repo.db.entries) == Some(request)
      modifies this`outputFiles, repo.db
      ensures repo.db.Valid() && repo.db.Settled() && repo.db.nextId == old(repo.db.nextId)
      ensures repo.db.entries == NextTable(old(repo.db.entries), outputDirectory, sds, decode, writeOk, now)
      ensures outputFiles == NextFiles(old(outputFiles), old(repo.db.entries), outputDirectory, sds, decode, writeOk)
    {
      ghost var es := repo.db.entries;
      ProcessFiles(es, outputFiles, request, outputDirectory, sds, decode, writeOk);
      var storedFilePath := WriteToInputFolder(request, sds, decode, writeOk, now);
      if storedFilePath.None? {
        ProcessFailedTable(es, repo.db.entries, request, outputDirectory, sds, decode, writeOk, now);
        UpdateFailedRequest(request, now);
        return;
      }
      ghost var x := ExportOf(request, outputDirectory, sds, decode, writeOk);
      assert x.Exported? && storedFilePath.value == x.Path;
      assert repo.db.entries == es;
      ProcessSucceededTable(es, request, outputDirectory, sds, decode, writeOk, now);
      repo.db.Modify(request.Id, MarkSucceeded(now, storedFilePath.value));
      var _ := repo.Update(Some(request), now);
    }

    /** Loads the document of `request` and writes it to the output folder;
        returns the written path, or null when nothing was written. A null
        load marks the request failed here already. */
    method WriteToInputFolder(request: Request, sds: string -> Fetch, decode: string -> Option<string>,
                              writeOk: bool, now: Time)
      returns (storedFilePath: Option<string>)
      requires repo.db.Valid()
      modifies this`outputFiles, repo.db
      ensures repo.db.Valid() && repo.db.nextId == old(repo.db.nextId)
      ensures var x := ExportOf(request, outputDirectory, sds, decode, writeOk);
        && storedFilePath == (if x.Exported? then Some(x.Path) else None)
        && outputFiles == (if x.Exported? then old(outputFiles)[x.Path := x.Content] else old(outputFiles))
      ensures repo.db.entries ==
        if LoadFileFromSDS(request.DatastoreIdentifier, sds, decode).LoadNull?
        then SaveAll(WithChanges(old(repo.db.entries), request.Id, MarkFailed(now)), now)
        else old(repo.db.entries)
    {
      var inputFile := LoadFileFromSDS(request.DatastoreIdentifier, sds, decode);
      if inputFile.LoadThrew? {
        return None;
      }
      if inputFile.LoadNull? {
        UpdateFailedRequest(request, now);
        return None;
      }
      var path := Combine(outputDirectory, OutputFileName(request.RequestIdentifier, inputFile.FileName));
      if !writeOk {
        return None;
      }
      outputFiles := outputFiles[path := inputFile.Content];
      return Some(path);
    }

    /** Marks `request` failed and saves. */
    method UpdateFailedRequest(request: Request, now: Time)
      requires repo.db.Valid()
      modifies repo.db
      ensures repo.db.Valid() && repo.db.nextId == old(repo.db.nextId)
      ensures repo.db.entries == SaveAll(WithChanges(old(repo.db.entries), request.Id, MarkFailed(now)), now)
    {
      repo.db.Modify(request.Id, MarkFailed(now));
      var _ := repo.Update(Some(request), now);
    }
  }
}
