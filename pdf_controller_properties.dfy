/**
 * What the PDF handlers promise, stated over the handler functions:
 * the store invariant is kept by every handler, lookups are confined to the
 * requesting user's records, an upload adds exactly one record, a delete
 * removes one record and its file, and a rename touches only the display
 * name.
 */
module PdfControllerProperties {
  import opened Common
  import opened Names
  import opened PdfModel
  import opened UploadOrder
  import opened PdfController

  // ---------------------------------------------------------------------
  // Stored names

  /** Under the invariant, no two records share a stored file. */
  lemma StoredNamesDistinct(s: Store, i: nat, j: nat)
    requires Invariant(s) && i < |s.records| && j < |s.records| && i != j
    ensures s.records[i].fileName != s.records[j].fileName
  {
    var p, q := s.records[i], s.records[j];
    assert StoredUnderUuid(p) && StoredUnderUuid(q);
    assert p.uuid != q.uuid by {
      if i < j { assert UniqueUuids(s.records); } else { assert s.records[j].uuid != s.records[i].uuid; }
    }
    assert p.fileName[..36] == p.uuid;
    assert q.fileName[..36] == q.uuid;
  }

  /** No record stores its file under the name an unused uuid would get. */
  lemma FreshUuidNameUnused(s: Store, uuid: string, originalName: string)
    requires Invariant(s) && IsUuidText(uuid) && !UuidInUse(s.records, uuid)
    ensures forall i :: 0 <= i < |s.records| ==> s.records[i].fileName != StorageName(uuid, originalName)
  {
    forall i | 0 <= i < |s.records|
      ensures s.records[i].fileName != StorageName(uuid, originalName)
    {
      var p := s.records[i];
      assert StoredUnderUuid(p);
      assert p.fileName[..36] == p.uuid;
      assert StorageName(uuid, originalName)[..36] == uuid;
    }
  }

  // ---------------------------------------------------------------------
  // Upload

  /** Without a file the upload answers 400 and changes nothing. */
  lemma UploadWithoutFile(s: Store, user: UserId, uuid: string, now: Timestamp, moveOk: bool, writeOk: bool)
    ensures UploadPdf(s, None, user, uuid, now, moveOk, writeOk) == (Reply(BadRequest, None), s)
  {
  }

  /**
   * An upload answers 201 exactly when the temporary file is there and
   * moves, the required fields are present, the uuid is unused and the
   * database accepts the write. Then exactly one record is appended, named
   * as uploaded, owned by the requester and stored under
   * `uuid + extname(originalname)`, and its file has left the temporary
   * path for the uploads directory.
   */
  lemma UploadCreatesOneRecord(s: Store, f: UploadedFile, user: UserId, uuid: string,
                               now: Timestamp, moveOk: bool, writeOk: bool)
    requires IsUuidText(uuid)
    ensures var r := UploadPdf(s, Some(f), user, uuid, now, moveOk, writeOk);
      && (r.0.status == Created <==>
            f.path in s.temps && moveOk && writeOk && user != "" && f.originalname != ""
            && !UuidInUse(s.records, uuid))
      && (r.0.status == Created ==>
            && r.0.body == Some(Pdf(user, f.originalname, StorageName(uuid, f.originalname), uuid, now, false))
            && r.1.records == s.records + [r.0.body.value]
            && r.1.uploads == s.uploads + {StorageName(uuid, f.originalname)}
            && r.1.temps == s.temps - {f.path})
      && (r.0.status != Created ==>
            && r.0.status == ServerError && r.1.records == s.records
            && r.1.temps == s.temps - {f.path}
            && r.1.uploads == if f.path in s.temps && moveOk
                              then s.uploads + {StorageName(uuid, f.originalname)} else s.uploads)
  {
  }

  /** Every handler-reachable upload keeps the store invariant. */
  lemma UploadPreservesInvariant(s: Store, file: Option<UploadedFile>, user: UserId, uuid: string,
                                 now: Timestamp, moveOk: bool, writeOk: bool)
    requires Invariant(s) && IsUuidText(uuid)
    ensures Invariant(UploadPdf(s, file, user, uuid, now, moveOk, writeOk).1)
  {
    var r := UploadPdf(s, file, user, uuid, now, moveOk, writeOk);
    if r.0.status == Created {
      var p := r.0.body.value;
      var rs := r.1.records;
      assert rs == s.records + [p];
      StorageNameKeepsExtension(uuid, file.value.originalname);
      assert StoredUnderUuid(p);
      assert forall i :: 0 <= i < |s.records| ==> rs[i] == s.records[i];
    }
  }

  /**
   * As written, a creation that fails after the move leaves the moved file
   * in the uploads directory with no record naming it: the handler unlinks
   * the temporary path, which the move has already emptied.
   */
  lemma UploadFailureOrphansFile(s: Store, f: UploadedFile, user: UserId, uuid: string,
                                 now: Timestamp, writeOk: bool)
    requires Invariant(s) && IsUuidText(uuid) && !UuidInUse(s.records, uuid)
    requires f.path in s.temps
    requires UploadPdf(s, Some(f), user, uuid, now, true, writeOk).0.status != Created
    ensures var r := UploadPdf(s, Some(f), user, uuid, now, true, writeOk);
      && r.0.status == ServerError
      && r.1.records == s.records
      && f.path !in r.1.temps
      && StorageName(uuid, f.originalname) in r.1.uploads
      && forall i :: 0 <= i < |r.1.records| ==> r.1.records[i].fileName != StorageName(uuid, f.originalname)
  {
    FreshUuidNameUnused(s, uuid, f.originalname);
  }

  /**
   * With the compensating unlink, a failed upload adds no record and no
   * file, and removes the temporary file; a successful one is unchanged.
   */
  lemma CompensatedUploadLeavesNoOrphan(s: Store, file: Option<UploadedFile>, user: UserId, uuid: string,
                                        now: Timestamp, moveOk: bool, writeOk: bool)
    ensures var r := UploadPdfCompensated(s, file, user, uuid, now, moveOk, writeOk);
      && (r.0.status != Created ==> r.1.records == s.records && r.1.uploads <= s.uploads)
      && (r.0.status != Created && file.Some? ==> file.value.path !in r.1.temps)
      && (r.0.status == Created ==> r == UploadPdf(s, file, user, uuid, now, moveOk, writeOk))
  {
  }

  // ---------------------------------------------------------------------
  // Ownership

  /** Another user's record never matches the lookup filter. */
  lemma ForeignRecordDoesNotMatch(rs: seq<Pdf>, i: nat, user: UserId)
    requires UniqueUuids(rs) && i < |rs| && rs[i].user != user
    ensures forall j :: 0 <= j < |rs| ==> !Matches(rs[j], rs[i].uuid, user)
  {
    forall j | 0 <= j < |rs| ensures !Matches(rs[j], rs[i].uuid, user) {
      if j < i { assert rs[j].uuid != rs[i].uuid; }
      else if j > i { assert rs[i].uuid != rs[j].uuid; }
    }
  }

  /**
   * When no record matches `{ uuid, user }`, get, download, delete and
   * rename (with a name) all answer 404 and change nothing.
   */
  lemma NoMatchIsNotFound(s: Store, uuid: string, user: UserId, newName: string, writeOk: bool)
    requires forall i :: 0 <= i < |s.records| ==> !Matches(s.records[i], uuid, user)
    requires newName != ""
    ensures GetPdfByUuid(s, uuid, user, true) == Reply(NotFound, None)
    ensures DownloadPdf(s, uuid, user, true) == Reply(NotFound, None)
    ensures DeletePdf(s, uuid, user, true, writeOk) == (NotFound, s)
    ensures RenamePdf(s, uuid, user, Some(newName), true, writeOk) == (Reply(NotFound, None), s)
  {
  }

  /** A request for another user's record is answered as if it did not exist. */
  lemma ForeignRecordIsNotFound(s: Store, i: nat, user: UserId, newName: string, writeOk: bool)
    requires Invariant(s) && i < |s.records| && s.records[i].user != user && newName != ""
    ensures var uuid := s.records[i].uuid;
      && GetPdfByUuid(s, uuid, user, true) == Reply(NotFound, None)
      && DownloadPdf(s, uuid, user, true) == Reply(NotFound, None)
      && DeletePdf(s, uuid, user, true, writeOk) == (NotFound, s)
      && RenamePdf(s, uuid, user, Some(newName), true, writeOk) == (Reply(NotFound, None), s)
  {
    ForeignRecordDoesNotMatch(s.records, i, user);
    NoMatchIsNotFound(s, s.records[i].uuid, user, newName, writeOk);
  }

  /**
   * After a successful upload the uploader can get the record and download
   * its file under the uploaded name, unless that name cannot be put in
   * the disposition header, which gives 500; any other user gets 404.
   */
  lemma UploadThenGet(s: Store, f: UploadedFile, user: UserId, uuid: string,
                      now: Timestamp, moveOk: bool, writeOk: bool, other: UserId)
    requires Invariant(s) && IsUuidText(uuid)
    requires UploadPdf(s, Some(f), user, uuid, now, moveOk, writeOk).0.status == Created
    requires other != user
    ensures var r := UploadPdf(s, Some(f), user, uuid, now, moveOk, writeOk);
      && GetPdfByUuid(r.1, uuid, user, true) == Reply(Ok, r.0.body)
      && DownloadPdf(r.1, uuid, user, true)
           == (if HeaderSafe(f.originalname)
               then Reply(Ok, Some(Download(StorageName(uuid, f.originalname), f.originalname)))
               else Reply(ServerError, None))
      && GetPdfByUuid(r.1, uuid, other, true) == Reply(NotFound, None)
  {
    var r := UploadPdf(s, Some(f), user, uuid, now, moveOk, writeOk);
    UploadPreservesInvariant(s, Some(f), user, uuid, now, moveOk, writeOk);
    var rs := r.1.records;
    assert rs == s.records + [r.0.body.value];
    FindOneFindsTheMatch(rs, uuid, user, |s.records|);
    ForeignRecordDoesNotMatch(rs, |s.records|, other);
  }

  /**
   * A download of the requester's own record whose stored file is missing
   * from the uploads directory answers 404, not 500.
   */
  lemma DownloadMissingFileIsNotFound(s: Store, i: nat)
    requires Invariant(s) && i < |s.records| && s.records[i].fileName !in s.uploads
    ensures DownloadPdf(s, s.records[i].uuid, s.records[i].user, true) == Reply(NotFound, None)
  {
    FindOneFindsTheMatch(s.records, s.records[i].uuid, s.records[i].user, i);
  }

  /**
   * A rename can make a record undownloadable: after renaming the
   * requester's record to the one character U+62A5 (above 0xFF), its file
   * is still present but the download replies 500, because the new display
   * name cannot be put in the disposition header.
   */
  lemma RenameToWideNameBreaksDownload(s: Store, i: nat)
    requires Invariant(s) && i < |s.records| && s.records[i].fileName in s.uploads
    ensures var p := s.records[i];
      var renamed := RenamePdf(s, p.uuid, p.user, Some("\U{62A5}"), true, true);
      && renamed.0.status == Ok
      && DownloadPdf(renamed.1, p.uuid, p.user, true) == Reply(ServerError, None)
  {
    var p := s.records[i];
    RenameTouchesOnlyDisplayName(s, i, "\U{62A5}");
    var after := RenamePdf(s, p.uuid, p.user, Some("\U{62A5}"), true, true).1;
    RenamePreservesInvariant(s, p.uuid, p.user, Some("\U{62A5}"), true, true);
    assert !HeaderChar(after.records[i].originalName[0]);
    FindOneFindsTheMatch(after.records, p.uuid, p.user, i);
  }

  // ---------------------------------------------------------------------
  // Delete

  /** Removing one record keeps the invariant, whatever files remain. */
  lemma RemoveAtKeepsInvariant(s: Store, i: nat, uploads: set<string>)
    requires Invariant(s) && i < |s.records|
    ensures Invariant(s.(records := RemoveAt(s.records, i), uploads := uploads))
  {
    var rs := RemoveAt(s.records, i);
    forall a, b | 0 <= a < b < |rs| ensures rs[a].uuid != rs[b].uuid {
      var a', b' := if a < i then a else a + 1, if b < i then b else b + 1;
      assert rs[a] == s.records[a'] && rs[b] == s.records[b'] && a' < b';
    }
  }

  lemma DeletePreservesInvariant(s: Store, uuid: string, user: UserId, readOk: bool, writeOk: bool)
    requires Invariant(s)
    ensures Invariant(DeletePdf(s, uuid, user, readOk, writeOk).1)
  {
    if readOk {
      match FindOne(s.records, uuid, user)
      case None =>
      case Some(i) => RemoveAtKeepsInvariant(s, i, s.uploads - {s.records[i].fileName});
    }
  }

  /**
   * A delete that answers 200 has removed the matching record and its
   * stored file and nothing else: every other record and its file are as
   * before. A second delete of the same uuid answers 404 and the file
   * stays absent.
   */
  lemma DeleteRemovesRecordAndFile(s: Store, uuid: string, user: UserId, writeOk: bool, writeOk2: bool)
    requires Invariant(s)
    requires DeletePdf(s, uuid, user, true, writeOk).0 == Ok
    ensures var after := DeletePdf(s, uuid, user, true, writeOk).1;
      && (exists i :: 0 <= i < |s.records| && Matches(s.records[i], uuid, user)
           && after.records == RemoveAt(s.records, i)
           && after.uploads == s.uploads - {s.records[i].fileName})
      && (forall j :: 0 <= j < |after.records| ==>
            (after.records[j].fileName in after.uploads <==> after.records[j].fileName in s.uploads))
      && DeletePdf(after, uuid, user, true, writeOk2) == (NotFound, after)
  {
    var i := FindOne(s.records, uuid, user).value;
    var after := DeletePdf(s, uuid, user, true, writeOk).1;
    var rs := after.records;
    assert rs == RemoveAt(s.records, i);
    forall j | 0 <= j < |rs|
      ensures rs[j].fileName in after.uploads <==> rs[j].fileName in s.uploads
    {
      var j' := if j < i then j else j + 1;
      assert rs[j] == s.records[j'] && j' != i;
      StoredNamesDistinct(s, i, j');
    }
    forall j | 0 <= j < |rs| ensures !Matches(rs[j], uuid, user) {
      var j' := if j < i then j else j + 1;
      assert rs[j] == s.records[j'] && j' != i;
      if j' < i { assert s.records[j'].uuid != s.records[i].uuid; }
      else { assert s.records[i].uuid != s.records[j'].uuid; }
    }
  }

  /**
   * A delete of the requester's own record answers 200 whenever the query
   * and the deletion succeed, whether or not its stored file is present: a
   * missing file is skipped without error.
   */
  lemma DeleteOwnRecordSucceeds(s: Store, i: nat)
    requires Invariant(s) && i < |s.records|
    ensures var p := s.records[i];
      var r := DeletePdf(s, p.uuid, p.user, true, true);
      && r.0 == Ok
      && r.1.records == RemoveAt(s.records, i)
      && r.1.uploads == s.uploads - {p.fileName}
  {
    FindOneFindsTheMatch(s.records, s.records[i].uuid, s.records[i].user, i);
  }

  /**
   * A delete whose record deletion fails answers 500 after the file is
   * already gone: the record stays and points at a missing file.
   */
  lemma DeleteWriteFailureKeepsRecord(s: Store, i: nat)
    requires Invariant(s) && i < |s.records|
    ensures var p := s.records[i];
      var r := DeletePdf(s, p.uuid, p.user, true, false);
      && r.0 == ServerError
      && r.1.records == s.records
      && r.1.uploads == s.uploads - {p.fileName}
  {
    FindOneFindsTheMatch(s.records, s.records[i].uuid, s.records[i].user, i);
  }

  // ---------------------------------------------------------------------
  // Rename

  /** Changing one record's display name to a non-empty name keeps the invariant. */
  lemma SetDisplayNameKeepsInvariant(s: Store, i: nat, name: string)
    requires Invariant(s) && i < |s.records| && name != ""
    ensures Invariant(s.(records := s.records[i := s.records[i].(originalName := name)]))
  {
    var rs := s.records[i := s.records[i].(originalName := name)];
    assert forall j :: 0 <= j < |rs| ==> rs[j].uuid == s.records[j].uuid && rs[j].fileName == s.records[j].fileName;
    assert forall j :: 0 <= j < |rs| ==> StoredUnderUuid(s.records[j]) && HasRequiredFields(s.records[j]);
  }

  lemma RenamePreservesInvariant(s: Store, uuid: string, user: UserId, newName: Option<string>,
                                 readOk: bool, writeOk: bool)
    requires Invariant(s)
    ensures Invariant(RenamePdf(s, uuid, user, newName, readOk, writeOk).1)
  {
    var r := RenamePdf(s, uuid, user, newName, readOk, writeOk);
    if r.0.status == Ok {
      var i := FindOne(s.records, uuid, user).value;
      var name := RenamedName(newName.value, s.records[i].originalName);
      SetDisplayNameKeepsInvariant(s, i, name);
    }
  }

  /** A rename without a name (missing or empty) answers 400 and changes nothing. */
  lemma RenameWithoutName(s: Store, uuid: string, user: UserId, readOk: bool, writeOk: bool)
    ensures RenamePdf(s, uuid, user, None, readOk, writeOk) == (Reply(BadRequest, None), s)
    ensures RenamePdf(s, uuid, user, Some(""), readOk, writeOk) == (Reply(BadRequest, None), s)
  {
  }

  /**
   * A rename of the requester's record answers 200 when the save succeeds;
   * it sets the display name to `newName + extname(old display name)` and
   * leaves the stored name, uuid, owner, upload date, every other record
   * and the filesystem as they were.
   */
  lemma RenameTouchesOnlyDisplayName(s: Store, i: nat, newName: string)
    requires Invariant(s) && i < |s.records| && newName != ""
    ensures var p := s.records[i];
      var r := RenamePdf(s, p.uuid, p.user, Some(newName), true, true);
      && r.0.status == Ok
      && r.1.uploads == s.uploads && r.1.temps == s.temps
      && |r.1.records| == |s.records|
      && r.1.records[i].originalName == newName + ExtName(p.originalName)
      && r.1.records[i].fileName == p.fileName && r.1.records[i].uuid == p.uuid
      && r.1.records[i].user == p.user && r.1.records[i].uploadDate == p.uploadDate
      && r.1.records[i].embeddingsGenerated == p.embeddingsGenerated
      && (forall j :: 0 <= j < |s.records| && j != i ==> r.1.records[j] == s.records[j])
      && r.0.body == Some(r.1.records[i])
  {
    FindOneFindsTheMatch(s.records, s.records[i].uuid, s.records[i].user, i);
  }

  /**
   * Renaming "x.pdf" to "report" and then to "final.v2" gives
   * "report.pdf" and then "final.v2.pdf".
   */
  lemma RenameReattachesExtension(s: Store, i: nat)
    requires Invariant(s) && i < |s.records| && s.records[i].originalName == "x.pdf"
    ensures var p := s.records[i];
      var first := RenamePdf(s, p.uuid, p.user, Some("report"), true, true);
      var second := RenamePdf(first.1, p.uuid, p.user, Some("final.v2"), true, true);
      && first.1.records[i].originalName == "report.pdf"
      && second.1.records[i].originalName == "final.v2.pdf"
  {
    var p := s.records[i];
    RenameExample();
    RenameTouchesOnlyDisplayName(s, i, "report");
    var first := RenamePdf(s, p.uuid, p.user, Some("report"), true, true);
    RenamePreservesInvariant(s, p.uuid, p.user, Some("report"), true, true);
    RenameTouchesOnlyDisplayName(first.1, i, "final.v2");
  }

  // ---------------------------------------------------------------------
  // List

  /** The list holds exactly the requester's records. */
  lemma ListIsExactlyOwned(s: Store, user: UserId, p: Pdf)
    ensures var r := GetAllPdfs(s, user, true);
      r.status == Ok && (p in r.body.value <==> p in s.records && p.user == user)
  {
    var l := GetAllPdfs(s, user, true).body.value;
    assert p in l <==> multiset(l)[p] > 0;
    assert p in s.records <==> multiset(s.records)[p] > 0;
  }

  /**
   * When the requester's records were uploaded at strictly increasing
   * times, the list gives them newest first: in reverse upload order.
   */
  lemma ListReversesUploadOrder(s: Store, user: UserId)
    requires OldestFirstStrictly(OwnedBy(s.records, user))
    ensures GetAllPdfs(s, user, true).body == Some(Reversed(OwnedBy(s.records, user)))
  {
    SortReversesUploadOrder(OwnedBy(s.records, user));
  }

  // ---------------------------------------------------------------------
  // Fields no handler changes

  /** Every field of a record except its display name. */
  datatype Identity = Identity(uuid: string, fileName: string, user: UserId,
                               uploadDate: Timestamp, embeddingsGenerated: bool)

  function IdentityOf(p: Pdf): Identity
  {
    Identity(p.uuid, p.fileName, p.user, p.uploadDate, p.embeddingsGenerated)
  }

  /**
   * A delete takes exactly the requested uuid out of use when it answers
   * 200, and no other: every other uuid stays in use or out of use.
   */
  lemma DeleteRetiresOnlyItsUuid(s: Store, uuid: string, user: UserId, readOk: bool, writeOk: bool)
    requires Invariant(s)
    ensures var r := DeletePdf(s, uuid, user, readOk, writeOk);
      forall u :: UuidInUse(r.1.records, u) <==> UuidInUse(s.records, u) && !(r.0 == Ok && u == uuid)
  {
    var r := DeletePdf(s, uuid, user, readOk, writeOk);
    if r.0 == Ok {
      var i := FindOne(s.records, uuid, user).value;
      var d := r.1.records;
      assert d == RemoveAt(s.records, i);
      forall u ensures UuidInUse(d, u) <==> UuidInUse(s.records, u) && u != uuid {
        if UuidInUse(d, u) {
          var j :| 0 <= j < |d| && d[j].uuid == u;
          var j' := if j < i then j else j + 1;
          assert d[j] == s.records[j'] && j' != i;
          if j' < i { assert s.records[j'].uuid != s.records[i].uuid; }
          else { assert s.records[i].uuid != s.records[j'].uuid; }
        }
        if UuidInUse(s.records, u) && u != uuid {
          var k :| 0 <= k < |s.records| && s.records[k].uuid == u;
          assert k != i;
          var k' := if k < i then k else k - 1;
          assert d[k'] == s.records[k];
        }
      }
    }
  }

  /** A rename keeps, record by record and position by position, every field but the display name. */
  lemma RenameKeepsIdentity(s: Store, uuid: string, user: UserId, newName: Option<string>,
                            readOk: bool, writeOk: bool)
    ensures var n := RenamePdf(s, uuid, user, newName, readOk, writeOk).1.records;
      |n| == |s.records| && forall j :: 0 <= j < |n| ==> IdentityOf(n[j]) == IdentityOf(s.records[j])
  {
  }

  /**
   * An upload puts exactly its own uuid into use when it answers 201, and
   * no other: every uuid in use before stays in use.
   */
  lemma UploadAddsOnlyItsUuid(s: Store, file: Option<UploadedFile>, user: UserId, uuid: string,
                              now: Timestamp, moveOk: bool, writeOk: bool)
    ensures var r := UploadPdf(s, file, user, uuid, now, moveOk, writeOk);
      forall u :: UuidInUse(r.1.records, u) <==> UuidInUse(s.records, u) || (r.0.status == Created && u == uuid)
  {
    var r := UploadPdf(s, file, user, uuid, now, moveOk, writeOk);
    var rs := r.1.records;
    forall u ensures UuidInUse(rs, u) <==> UuidInUse(s.records, u) || (r.0.status == Created && u == uuid) {
      if UuidInUse(s.records, u) {
        var k :| 0 <= k < |s.records| && s.records[k].uuid == u;
        assert rs[k] == s.records[k];
      }
      if r.0.status == Created {
        assert rs[|s.records|].uuid == uuid;
        if UuidInUse(rs, u) {
          var k :| 0 <= k < |rs| && rs[k].uuid == u;
          if k < |s.records| { assert s.records[k] == rs[k]; }
        }
      }
    }
  }
}
