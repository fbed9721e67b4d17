/**
 * The PDF handlers as the controller runs them: one object holds the Pdf
 * collection, the names in the uploads directory and the temporary upload
 * files, and each handler updates them step by step. Every method is
 * proved to give the reply and the new state of the matching handler
 * function, and the mutating ones to keep the store invariant.
 */
module Handlers {
  import opened Common
  import opened Names
  import opened PdfModel
  import opened UploadOrder
  import opened PdfController
  import PdfControllerProperties

  class PdfStore {
    var records: seq<Pdf>
    var uploads: set<string>
    var temps: set<string>

    function Snapshot(): Store
      reads this
    {
      Store(records, uploads, temps)
    }

    ghost predicate Valid()
      reads this
    {
      Invariant(Snapshot())
    }

    constructor(initial: Store)
      requires Invariant(initial)
      ensures Valid() && Snapshot() == initial
    {
      records, uploads, temps := initial.records, initial.uploads, initial.temps;
    }

    /** `uploadPdf`: move the temporary file under the uuid's name, then create the record. */
    method UploadPdf(file: Option<UploadedFile>, user: UserId, uuid: string, now: Timestamp,
                     moveOk: bool, writeOk: bool) returns (reply: Reply<Pdf>)
      requires Valid() && IsUuidText(uuid)
      modifies this
      ensures Valid()
      ensures (reply, Snapshot()) == PdfController.UploadPdf(old(Snapshot()), file, user, uuid, now, moveOk, writeOk)
    {
      PdfControllerProperties.UploadPreservesInvariant(Snapshot(), file, user, uuid, now, moveOk, writeOk);
      if file.None? {
        return Reply(BadRequest, None);
      }
      var f := file.value;
      var newFileName := StorageName(uuid, f.originalname);
      if f.path in temps && moveOk {
        // the temporary file is renamed to its uuid-based name in the uploads directory
        temps := temps - {f.path};
        uploads := uploads + {newFileName};
        var created := Create(records, user, f.originalname, newFileName, uuid, now, writeOk);
        if created.Success? {
          records := records + [created.value];
          return Reply(Created, Some(created.value));
        }
        assert temps - {f.path} == temps;
      }
      // the move or the creation threw
      RemoveTempIfPresent(f.path);
      reply := Reply(ServerError, None);
    }

    /** The upload's error path: unlink the temporary path if a file is still there. */
    method RemoveTempIfPresent(path: string)
      modifies this
      ensures temps == old(temps) - {path}
      ensures records == old(records) && uploads == old(uploads)
    {
      if path in temps {
        temps := temps - {path};
      }
    }

    /** `getAllPdfs`: the requester's records, newest first. */
    method GetAllPdfs(user: UserId, readOk: bool) returns (reply: Reply<seq<Pdf>>)
      ensures reply == PdfController.GetAllPdfs(Snapshot(), user, readOk)
    {
      if !readOk {
        return Reply(ServerError, None);
      }
      var owned := OwnedBy(records, user);
      reply := Reply(Ok, Some(SortNewestFirst(owned)));
    }

    /** `getPdfByUuid`: the record matching `{ uuid, user }`. */
    method GetPdfByUuid(uuid: string, user: UserId, readOk: bool) returns (reply: Reply<Pdf>)
      ensures reply == PdfController.GetPdfByUuid(Snapshot(), uuid, user, readOk)
    {
      if !readOk {
        return Reply(ServerError, None);
      }
      var found := FindOne(records, uuid, user);
      if found.None? {
        return Reply(NotFound, None);
      }
      reply := Reply(Ok, Some(records[found.value]));
    }

    /** `downloadPdf`: the matching record's file under its display name, if the file is there. */
    method DownloadPdf(uuid: string, user: UserId, readOk: bool) returns (reply: Reply<Download>)
      ensures reply == PdfController.DownloadPdf(Snapshot(), uuid, user, readOk)
    {
      if !readOk {
        return Reply(ServerError, None);
      }
      var found := FindOne(records, uuid, user);
      if found.None? {
        return Reply(NotFound, None);
      }
      var pdf := records[found.value];
      if pdf.fileName !in uploads {
        reply := Reply(NotFound, None);
      } else if !HeaderSafe(pdf.originalName) {
        reply := Reply(ServerError, None);
      } else {
        reply := Reply(Ok, Some(Download(pdf.fileName, pdf.originalName)));
      }
    }

    /** `deletePdf`: unlink the matching record's file if present, then delete the record. */
    method DeletePdf(uuid: string, user: UserId, readOk: bool, writeOk: bool) returns (status: Status)
      requires Valid()
      modifies this
      ensures Valid()
      ensures (status, Snapshot()) == PdfController.DeletePdf(old(Snapshot()), uuid, user, readOk, writeOk)
    {
      PdfControllerProperties.DeletePreservesInvariant(Snapshot(), uuid, user, readOk, writeOk);
      if !readOk {
        return ServerError;
      }
      var found := FindOne(records, uuid, user);
      if found.None? {
        return NotFound;
      }
      var i := found.value;
      var pdf := records[i];
      if pdf.fileName in uploads {
        uploads := uploads - {pdf.fileName};
      } else {
        assert uploads == uploads - {pdf.fileName};
      }
      if !writeOk {
        return ServerError;
      }
      records := records[..i] + records[i + 1..];
      status := Ok;
    }

    /** `renamePdf`: give the matching record `newName` with its old extension. */
    method RenamePdf(uuid: string, user: UserId, newName: Option<string>, readOk: bool, writeOk: bool)
      returns (reply: Reply<Pdf>)
      requires Valid()
      modifies this
      ensures Valid()
      ensures (reply, Snapshot()) == PdfController.RenamePdf(old(Snapshot()), uuid, user, newName, readOk, writeOk)
    {
      PdfControllerProperties.RenamePreservesInvariant(Snapshot(), uuid, user, newName, readOk, writeOk);
      if newName.None? || newName.value == "" {
        return Reply(BadRequest, None);
      }
      if !readOk {
        return Reply(ServerError, None);
      }
      var found := FindOne(records, uuid, user);
      if found.None? {
        return Reply(NotFound, None);
      }
      var i := found.value;
      var renamed := records[i].(originalName := RenamedName(newName.value, records[i].originalName));
      if !writeOk {
        // the save threw; the database keeps the old name
        return Reply(ServerError, None);
      }
      records := records[i := renamed];
      reply := Reply(Ok, Some(renamed));
    }
  }
}
