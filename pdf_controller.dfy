/**
 * The six PDF handlers as functions of the store they act on. A `Store`
 * holds the three parts of state the handlers see: the Pdf collection, the
 * file names present in the uploads directory, and the temporary files the
 * upload middleware has written. Each handler function gives the reply and
 * the store after the request; foreign outcomes (whether a file move, a
 * database query or a database write succeeds) are parameters.
 */
module PdfController {
  import opened Common
  import opened Names
  import opened PdfModel
  import opened UploadOrder

  datatype Status = Ok | Created | BadRequest | NotFound | ServerError
  {
    /** The HTTP status code the handler sends. */
    function Code(): nat
    {
      match this
      case Ok => 200
      case Created => 201
      case BadRequest => 400
      case NotFound => 404
      case ServerError => 500
    }
  }

  /** A status with the body that goes with it, if any. */
  datatype Reply<T> = Reply(status: Status, body: Option<T>)

  /** What the upload middleware hands over: the temporary path and the client's file name. */
  datatype UploadedFile = UploadedFile(path: string, originalname: string)

  /** What a download sends: the stored file it streams and the name in its disposition. */
  datatype Download = Download(storedFile: string, dispositionName: string)

  datatype Store = Store(records: seq<Pdf>, uploads: set<string>, temps: set<string>)

  /** The lookup filter `{ uuid, user }`. */
  predicate Matches(p: Pdf, uuid: string, user: UserId)
  {
    p.uuid == uuid && p.user == user
  }

  /** `findOne({ uuid, user })`: the position of the first matching record, if any. */
  function FindOne(rs: seq<Pdf>, uuid: string, user: UserId): (r: Option<nat>)
    ensures r.Some? ==> r.value < |rs| && Matches(rs[r.value], uuid, user)
    ensures r.None? <==> forall i :: 0 <= i < |rs| ==> !Matches(rs[i], uuid, user)
  {
    if rs == [] then None
    else if Matches(rs[0], uuid, user) then Some(0)
    else
      match FindOne(rs[1..], uuid, user)
      case Some(k) => Some(k + 1)
      case None => None
  }

  /** With unique uuids, a matching record is the one `findOne` returns. */
  lemma FindOneFindsTheMatch(rs: seq<Pdf>, uuid: string, user: UserId, i: nat)
    requires UniqueUuids(rs) && i < |rs| && Matches(rs[i], uuid, user)
    ensures FindOne(rs, uuid, user) == Some(i)
  {
  }

  function RemoveAt(rs: seq<Pdf>, i: nat): (r: seq<Pdf>)
    requires i < |rs|
    ensures |r| == |rs| - 1
    ensures forall j :: 0 <= j < i ==> r[j] == rs[j]
    ensures forall j :: i <= j < |r| ==> r[j] == rs[j + 1]
  {
    rs[..i] + rs[i + 1..]
  }

  /** A record's stored file is named by its uuid followed by an extension. */
  predicate StoredUnderUuid(p: Pdf)
  {
    && IsUuidText(p.uuid)
    && |p.uuid| <= |p.fileName| && p.fileName[..|p.uuid|] == p.uuid
    && IsExtension(p.fileName[|p.uuid|..])
  }

  /**
   * What every reachable store satisfies: the schema's guarantees, stored
   * names derived from the uuid alone, and no record marked as embedded.
   */
  predicate Invariant(s: Store)
  {
    && Valid(s.records)
    && (forall i :: 0 <= i < |s.records| ==> StoredUnderUuid(s.records[i]))
    && (forall i :: 0 <= i < |s.records| ==> !s.records[i].embeddingsGenerated)
  }

  /**
   * `uploadPdf`: without a file, 400. Otherwise the temporary file is moved
   * to `uuid + extname(originalname)` in the uploads directory and the
   * record is created. If the move throws, the temporary file is unlinked
   * when it is still there; if the creation throws, the handler unlinks the
   * temporary path again, which the move has already emptied, so the moved
   * file stays.
   */
  function UploadPdf(s: Store, file: Option<UploadedFile>, user: UserId, uuid: string,
                     now: Timestamp, moveOk: bool, writeOk: bool): (r: (Reply<Pdf>, Store))
    ensures r.0.status in {Created, BadRequest, ServerError}
    ensures r.0.status == Created <==> r.0.body.Some?
    ensures r.1.records == s.records || (r.0.body.Some? && r.1.records == s.records + [r.0.body.value])
  {
    if file.None? then (Reply(BadRequest, None), s)
    else
      var f := file.value;
      if f.path !in s.temps || !moveOk then
        (Reply(ServerError, None), s.(temps := s.temps - {f.path}))
      else
        var name := StorageName(uuid, f.originalname);
        var moved := s.(temps := s.temps - {f.path}, uploads := s.uploads + {name});
        match Create(s.records, user, f.originalname, name, uuid, now, writeOk)
        case Success(p) => (Reply(Created, Some(p)), moved.(records := s.records + [p]))
        case Failure(_) => (Reply(ServerError, None), moved)
  }

  /**
   * The upload as its failure comment means it: when the creation throws
   * after the move, the moved file is removed as well.
   */
  function UploadPdfCompensated(s: Store, file: Option<UploadedFile>, user: UserId, uuid: string,
                                now: Timestamp, moveOk: bool, writeOk: bool): (r: (Reply<Pdf>, Store))
    ensures r.0.status in {Created, BadRequest, ServerError}
    ensures r.0.status == Created <==> r.0.body.Some?
  {
    var (reply, after) := UploadPdf(s, file, user, uuid, now, moveOk, writeOk);
    if reply.status == ServerError && file.Some? && file.value.path in s.temps && moveOk then
      (reply, after.(uploads := after.uploads - {StorageName(uuid, file.value.originalname)}))
    else
      (reply, after)
  }

  /** `getAllPdfs`: the user's records, newest upload first. */
  function GetAllPdfs(s: Store, user: UserId, readOk: bool): (r: Reply<seq<Pdf>>)
    ensures r.status == Ok <==> readOk
    ensures r.status == Ok ==> r.body.Some? && NewestFirst(r.body.value)
    ensures r.status == Ok ==> forall p :: multiset(r.body.value)[p] ==
                                 if p.user == user then multiset(s.records)[p] else 0
    ensures r.status != Ok ==> r.status == ServerError && r.body.None?
  {
    if !readOk then Reply(ServerError, None)
    else Reply(Ok, Some(SortNewestFirst(OwnedBy(s.records, user))))
  }

  /** `getPdfByUuid`: the record matching `{ uuid, user }`, or 404. */
  function GetPdfByUuid(s: Store, uuid: string, user: UserId, readOk: bool): (r: Reply<Pdf>)
    ensures r.status in {Ok, NotFound, ServerError}
    ensures r.status == Ok <==> readOk && exists i :: 0 <= i < |s.records| && Matches(s.records[i], uuid, user)
    ensures r.status == ServerError <==> !readOk
    ensures r.status == Ok ==> r.body.Some? && r.body.value in s.records && Matches(r.body.value, uuid, user)
    ensures r.status != Ok ==> r.body.None?
  {
    if !readOk then Reply(ServerError, None)
    else
      match FindOne(s.records, uuid, user)
      case None => Reply(NotFound, None)
      case Some(i) => Reply(Ok, Some(s.records[i]))
  }

  /** A character Node accepts in a header value: a tab, printable ASCII, or a code point from 0x80 to 0xFF. */
  predicate HeaderChar(c: char)
  {
    c == '\t' || (' ' <= c <= '~') || ('\U{80}' <= c <= '\U{FF}')
  }

  /**
   * A display name that `setHeader` accepts inside the disposition
   * `inline; filename="<name>"`; any other character makes it throw.
   */
  predicate HeaderSafe(name: string)
  {
    forall k :: 0 <= k < |name| ==> HeaderChar(name[k])
  }

  /**
   * `downloadPdf`: the matching record's stored file, shown under its
   * display name; 404 when no record matches or its file is missing. When
   * the display name cannot be put in the disposition header, `setHeader`
   * throws and the handler replies 500.
   */
  function DownloadPdf(s: Store, uuid: string, user: UserId, readOk: bool): (r: Reply<Download>)
    ensures r.status in {Ok, NotFound, ServerError}
    ensures UniqueUuids(s.records) ==>
              (r.status == Ok <==> readOk && exists i :: 0 <= i < |s.records| && Matches(s.records[i], uuid, user)
                                                         && s.records[i].fileName in s.uploads
                                                         && HeaderSafe(s.records[i].originalName))
    ensures UniqueUuids(s.records) ==>
              (r.status == ServerError <==>
                 !readOk || exists i :: 0 <= i < |s.records| && Matches(s.records[i], uuid, user)
                                        && s.records[i].fileName in s.uploads
                                        && !HeaderSafe(s.records[i].originalName))
    ensures !readOk ==> r.status == ServerError
    ensures r.status != Ok ==> r.body.None?
    ensures r.status == Ok ==>
              && r.body.Some? && r.body.value.storedFile in s.uploads
              && HeaderSafe(r.body.value.dispositionName)
              && (exists i :: 0 <= i < |s.records| && Matches(s.records[i], uuid, user)
                              && r.body.value == Download(s.records[i].fileName, s.records[i].originalName))
  {
    if !readOk then Reply(ServerError, None)
    else
      match FindOne(s.records, uuid, user)
      case None => Reply(NotFound, None)
      case Some(i) =>
        var p := s.records[i];
        if p.fileName !in s.uploads then Reply(NotFound, None)
        else if !HeaderSafe(p.originalName) then Reply(ServerError, None)
        else Reply(Ok, Some(Download(p.fileName, p.originalName)))
  }

  /**
   * `deletePdf`: the matching record's stored file is unlinked if present,
   * then the record is deleted. When the deletion throws, the file is gone
   * and the record stays.
   */
  function DeletePdf(s: Store, uuid: string, user: UserId, readOk: bool, writeOk: bool): (r: (Status, Store))
    ensures r.0 in {Ok, NotFound, ServerError}
    ensures r.1.temps == s.temps && r.1.uploads <= s.uploads
    ensures r.0 == NotFound <==> readOk && forall i :: 0 <= i < |s.records| ==> !Matches(s.records[i], uuid, user)
    ensures r.0 == Ok <==> readOk && writeOk && exists i :: 0 <= i < |s.records| && Matches(s.records[i], uuid, user)
    ensures r.0 == ServerError <==>
              !readOk || (!writeOk && exists i :: 0 <= i < |s.records| && Matches(s.records[i], uuid, user))
    ensures r.0 != Ok ==> r.1.records == s.records
    ensures r.0 == NotFound || !readOk ==> r.1 == s
    ensures r.0 == Ok ==>
              exists i :: 0 <= i < |s.records| && Matches(s.records[i], uuid, user)
                          && r.1.records == RemoveAt(s.records, i)
                          && r.1.uploads == s.uploads - {s.records[i].fileName}
  {
    if !readOk then (ServerError, s)
    else
      match FindOne(s.records, uuid, user)
      case None => (NotFound, s)
      case Some(i) =>
        var unlinked := s.(uploads := s.uploads - {s.records[i].fileName});
        if !writeOk then (ServerError, unlinked)
        else (Ok, unlinked.(records := RemoveAt(s.records, i)))
  }

  /**
   * `renamePdf`: 400 without a new name; otherwise the matching record's
   * display name becomes `newName + extname(old display name)`.
   */
  function RenamePdf(s: Store, uuid: string, user: UserId, newName: Option<string>,
                     readOk: bool, writeOk: bool): (r: (Reply<Pdf>, Store))
    ensures r.0.status in {Ok, BadRequest, NotFound, ServerError}
    ensures r.1.uploads == s.uploads && r.1.temps == s.temps && |r.1.records| == |s.records|
    ensures r.0.status == BadRequest <==> newName.None? || newName.value == ""
    ensures r.0.status == Ok <==>
              && newName.Some? && newName.value != "" && readOk && writeOk
              && exists i :: 0 <= i < |s.records| && Matches(s.records[i], uuid, user)
    ensures r.0.status == ServerError <==>
              && newName.Some? && newName.value != ""
              && (!readOk || (!writeOk && exists i :: 0 <= i < |s.records| && Matches(s.records[i], uuid, user)))
    ensures r.0.status != Ok ==> r.1 == s && r.0.body.None?
  {
    if newName.None? || newName.value == "" then (Reply(BadRequest, None), s)
    else if !readOk then (Reply(ServerError, None), s)
    else
      match FindOne(s.records, uuid, user)
      case None => (Reply(NotFound, None), s)
      case Some(i) =>
        var before := s.records[i];
        var renamed := before.(originalName := RenamedName(newName.value, before.originalName));
        if !writeOk then (Reply(ServerError, None), s)
        else (Reply(Ok, Some(renamed)), s.(records := s.records[i := renamed]))
  }
}
