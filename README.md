# PDF record store of the PDF Annotator backend

This project models the core of the PDF Annotator backend in Dafny: the store
behind the six PDF handlers (upload, list, get, download, delete, rename). Its
state has three parts:

- the collection of `Pdf` records (owner, display name, stored file name, uuid,
  upload date, embeddings flag);
- the set of file names present in the uploads directory;
- the set of temporary files written by the upload middleware.

Each handler is modelled twice. The first form is a function from the store to a
reply (a status code and, where the handler sends one, the record, the list or
the download) and the new store (`PdfController`). The second is a method of the
class `Handlers.PdfStore`, which updates the three fields step by step as the
handler does. Each method is proved to produce exactly what its function
describes, and the mutating methods are proved to keep the store invariant.

The store invariant has three parts:

- every record has its required fields;
- no two records share a uuid;
- every record's file is stored under its uuid followed by an extension, and no
  record is marked as embedded.

The two name compositions of the controller are plain functions in `Names`:

- the stored name `uuid + extname(originalname)`;
- the renamed display name `newName + extname(old display name)`.

Both use `ExtName`, an explicit model of Node's `path.extname` for a single file
name. It returns the suffix from the last `.`, or `""` in three cases:

- there is no `.`;
- the last `.` is the first character;
- the name is `..`.

Calls the model cannot see are parameters:

- the uuid that `uuidv4` returns (required to have its textual form);
- the clock (`now`);
- whether the file move succeeds (`moveOk`);
- whether a database query succeeds (`readOk`);
- whether a database write succeeds (`writeOk`).

`Pdf.create` is modelled by `PdfModel.Create`. It fails on these conditions:

- a missing required field (Mongoose rejects an empty string);
- a uuid that the unique index already holds;
- a failed write.

The upload's failure path does less than its own comment says. The comment at
pdfController.js:59 says the uploaded file is cleaned up when the database save
fails, but line 60 tests `req.file.path`, which `renameSync` at line 29 has
already emptied, so the moved file stays. The model follows the code
(`PdfController.UploadPdf`, `Handlers.PdfStore.UploadPdf`). The behaviour the
comment intends is modelled beside it; see "## Findings".

## Model

| member | source | states |
|---|---|---|
| `Names.ExtName` | backend/controllers/pdfController.js:25 | the extension is empty or a `.` followed by no other `.`, and it is a suffix of the name; when it is non-empty, it is shorter than the name |
| `Names.ExtNameAtLastDot` | backend/controllers/pdfController.js:25 | when the last `.` is not the first character and the name is not `..`, the extension is the suffix from that `.` |
| `Names.ExtNameEmpty` | backend/controllers/pdfController.js:25 | a name with no `.` after its first character, and `..`, have the empty extension |
| `Names.UuidHasNoDot` | backend/controllers/pdfController.js:23 | a uuid in textual form holds no `.` |
| `Names.ExtNameOfStemPlusExtension` | backend/controllers/pdfController.js:25 | for a non-empty stem without `.`, the extension of stem + extension is that extension |
| `Names.StorageName` | backend/controllers/pdfController.js:25 | the stored name starts with the uuid |
| `Names.StorageNameKeepsExtension` | backend/controllers/pdfController.js:23-25 | the stored name has the same extension as the uploaded name |
| `Names.StorageNameInjective` | backend/controllers/pdfController.js:23-25 | two distinct uuids give two distinct stored names, whatever the uploaded names |
| `Names.RenamedName` | backend/controllers/pdfController.js:175 | the renamed display name is the new name followed by an extension, and it is never empty when the new name is not |
| `Names.RenameKeepsExtension` | backend/controllers/pdfController.js:175 | a rename with a non-empty name keeps the old extension when there was one (except when the result is `..`) |
| `Names.RenameTwice` | backend/controllers/pdfController.js:175 | when the original display name has an extension, after two renames the display name is the second name followed by that extension, even when the names hold dots |
| `Names.RenameExample` | backend/controllers/pdfController.js:175 | "x.pdf" renamed to "report" gives "report.pdf"; "report.pdf" renamed to "final.v2" gives "final.v2.pdf" |
| `Names.RenameDottedNameBecomesExtension` | backend/controllers/pdfController.js:175 | on a name without an extension, "report" renamed to "final.v2" gives "final.v2", and renaming that to "x" gives "x.v2": the dotted tail of a new name becomes the extension |
| `Names.ExtNameAcrossSlash` | backend/controllers/pdfController.js:175 | `ExtName("a.b/c")` is ".b/c", where Node's `path.extname` gives "" |
| `Names.RenameToDotLosesExtension` | backend/controllers/pdfController.js:175 | "a." has extension "."; renaming it to "." gives "..", whose extension is empty |
| `PdfModel.Create` | backend/models/Pdf.js:4-36 | creation succeeds exactly when the write is accepted, every required field is present and the uuid is unused; the new record carries the given fields, the upload date is `now` and the embeddings flag is false; a valid collection stays valid with the record appended |
| `UploadOrder.OwnedBy` | backend/controllers/pdfController.js:72 | the filter `{ user }` keeps each of the user's records with its multiplicity and drops every other record |
| `UploadOrder.InsertByDate` | backend/controllers/pdfController.js:72 | inserting into a newest-first sequence keeps it newest first and adds exactly one record |
| `UploadOrder.SortNewestFirst` | backend/controllers/pdfController.js:72 | the sort `{ uploadDate: -1 }` returns a newest-first permutation of its input |
| `UploadOrder.InsertOldest` | backend/controllers/pdfController.js:72 | a record older than all the others is inserted at the end |
| `UploadOrder.SortReversesUploadOrder` | backend/controllers/pdfController.js:72 | records with strictly increasing upload dates are sorted into reverse order |
| `PdfController.FindOne` | backend/controllers/pdfController.js:85 | `findOne({ uuid, user })` returns a position whose record matches both the uuid and the user, and finds nothing exactly when no record matches |
| `PdfController.FindOneFindsTheMatch` | backend/controllers/pdfController.js:102 | when uuids are unique, `findOne` returns the one matching record |
| `PdfController.RemoveAt` | backend/controllers/pdfController.js:149 | removing one record shortens the collection by one and keeps the other records in order |
| `PdfController.UploadPdf` | backend/controllers/pdfController.js:16-65 | an upload replies 201, 400 or 500; it replies 201 exactly when it returns a record; the collection is unchanged or has that record appended |
| `PdfController.UploadPdfCompensated` | backend/controllers/pdfController.js:57-63 | the upload with the intended compensating unlink replies 201, 400 or 500, and replies 201 exactly when it returns a record |
| `PdfController.GetAllPdfs` | backend/controllers/pdfController.js:70-78 | the list replies 200 exactly when the query succeeds; the list is newest first and holds exactly the requester's records; otherwise 500 with no body |
| `PdfController.GetPdfByUuid` | backend/controllers/pdfController.js:83-95 | get replies 200 exactly when the query succeeds and some record matches `{ uuid, user }`, and then returns a matching record; it replies 500 exactly when the query fails; otherwise 404; no body unless 200 |
| `PdfController.DownloadPdf` | backend/controllers/pdfController.js:100-129 | with unique uuids, download replies 200 exactly when the query succeeds, a record matches, its file is in the uploads directory and its display name is one `setHeader` accepts; it streams that file under that name; it replies 500 exactly when the query fails or `setHeader` would throw on the matching record's name; otherwise 404; no body unless 200 |
| `PdfController.DeletePdf` | backend/controllers/pdfController.js:134-156 | delete replies 404 exactly when the query succeeds and no record matches, 200 exactly when the query and the deletion succeed and some record matches (whether or not its file is present), and 500 exactly when the query fails or the deletion of a matching record fails; a 404 or a failed query changes nothing; a 200 removes one matching record and its stored file; only a 200 changes the records; it never adds a file and never touches the temporary files |
| `PdfController.RenamePdf` | backend/controllers/pdfController.js:161-183 | rename replies 400 exactly when the new name is missing or empty, 200 exactly when a name is given, the query and the save succeed and some record matches, and 500 exactly when a name is given and the query fails or the save of a matching record fails; every reply other than 200 carries no record and leaves the store unchanged; it never touches the filesystem and keeps the number of records |
| `PdfControllerProperties.StoredNamesDistinct` | backend/models/Pdf.js:20-26 | under the invariant, no two records share a stored file |
| `PdfControllerProperties.FreshUuidNameUnused` | backend/controllers/pdfController.js:23-26 | no record stores its file under the name an unused uuid would get |
| `PdfControllerProperties.UploadWithoutFile` | backend/controllers/pdfController.js:17-19 | an upload without a file replies 400 and changes nothing |
| `PdfControllerProperties.UploadCreatesOneRecord` | backend/controllers/pdfController.js:23-63 | an upload replies 201 exactly when the temp file is present and moves, the fields are present, the uuid is unused and the write succeeds; it then appends exactly one record, owned by the requester, named as uploaded, stored as `uuid + extname`; the file leaves the temp path for the uploads directory; any other outcome replies 500, adds no record and removes the temp path; the uploads directory gains the moved file only when the move succeeded and nothing otherwise |
| `PdfControllerProperties.UploadPreservesInvariant` | backend/models/Pdf.js:20-26 | every upload keeps required fields, unique uuids, uuid-based stored names and the false embeddings flag |
| `PdfControllerProperties.UploadFailureOrphansFile` | backend/controllers/pdfController.js:57-63 | as written, a creation that fails after the move replies 500, adds no record, empties the temp path and leaves the moved file with no record naming it |
| `PdfControllerProperties.CompensatedUploadLeavesNoOrphan` | backend/controllers/pdfController.js:59-62 | with the intended unlink, a failed upload adds neither a record nor a file and removes the temp file; a successful one is unchanged |
| `PdfControllerProperties.ForeignRecordDoesNotMatch` | backend/controllers/pdfController.js:85 | with unique uuids, another user's record never matches the lookup filter for its uuid |
| `PdfControllerProperties.NoMatchIsNotFound` | backend/controllers/pdfController.js:85-88 | when no record matches `{ uuid, user }`, get, download, delete and rename all reply 404 and change nothing |
| `PdfControllerProperties.ForeignRecordIsNotFound` | backend/controllers/pdfController.js:136-140 | a request for another user's record gets 404 from get, download, delete and rename, and changes nothing |
| `PdfControllerProperties.UploadThenGet` | backend/controllers/pdfController.js:31-36 | after a 201 upload, the uploader gets the new record and downloads `uuid + extname` under the uploaded name, or gets 500 when that name cannot be a header value; any other user gets 404 |
| `PdfControllerProperties.RenameToWideNameBreaksDownload` | backend/controllers/pdfController.js:112-128 | renaming one's own present record to a name with a character above 0xFF replies 200, and a download of it then replies 500 |
| `PdfControllerProperties.DeletePreservesInvariant` | backend/controllers/pdfController.js:149 | every delete keeps the store invariant |
| `PdfControllerProperties.DeleteRemovesRecordAndFile` | backend/controllers/pdfController.js:143-151 | a 200 delete removes exactly the matching record and its stored file; every other record's file is present afterwards exactly when it was before; deleting the same uuid again replies 404 and changes nothing |
| `PdfControllerProperties.DownloadMissingFileIsNotFound` | backend/controllers/pdfController.js:110-124 | a download of the requester's own record whose stored file is missing replies 404 |
| `PdfControllerProperties.DeleteOwnRecordSucceeds` | backend/controllers/pdfController.js:134-151 | a delete of the requester's own record replies 200 when the query and the deletion succeed, whether or not its file is present; it removes that record and its stored file name |
| `PdfControllerProperties.DeleteWriteFailureKeepsRecord` | backend/controllers/pdfController.js:143-154 | when the record deletion fails, the reply is 500, the file is already gone and the record stays |
| `PdfControllerProperties.SetDisplayNameKeepsInvariant` | backend/controllers/pdfController.js:175-176 | giving one record a new non-empty display name keeps the store invariant |
| `PdfControllerProperties.RenamePreservesInvariant` | backend/controllers/pdfController.js:175-176 | every rename keeps the store invariant |
| `PdfControllerProperties.RenameWithoutName` | backend/controllers/pdfController.js:162-165 | a rename with a missing or empty name replies 400 and changes nothing |
| `PdfControllerProperties.RenameTouchesOnlyDisplayName` | backend/controllers/pdfController.js:168-178 | a rename of the requester's record replies 200 with the updated record; the display name becomes `newName + extname(old)`; the stored name, uuid, owner, upload date, flag, other records and the filesystem are unchanged |
| `PdfControllerProperties.RenameReattachesExtension` | backend/controllers/pdfController.js:175 | on a record named "x.pdf", renames to "report" and then "final.v2" give "report.pdf" and then "final.v2.pdf" |
| `PdfControllerProperties.ListIsExactlyOwned` | backend/controllers/pdfController.js:72-73 | a record is in the list exactly when it is in the collection and owned by the requester |
| `PdfControllerProperties.ListReversesUploadOrder` | backend/controllers/pdfController.js:72 | records uploaded at strictly increasing times are listed newest first, in reverse order |
| `PdfControllerProperties.DeleteRetiresOnlyItsUuid` | backend/controllers/pdfController.js:149 | with unique uuids, a uuid is in use after a delete exactly when it was before and is not the uuid of a 200 delete |
| `PdfControllerProperties.RenameKeepsIdentity` | backend/models/Pdf.js:27-35 | after a rename, every record at every position keeps its uuid, stored name, owner, upload date and embeddings flag; only a display name changes |
| `PdfControllerProperties.UploadAddsOnlyItsUuid` | backend/controllers/pdfController.js:31-36 | a uuid is in use after an upload exactly when it was before or it is the new record's uuid on a 201 |
| `Handlers.PdfStore.UploadPdf` | backend/controllers/pdfController.js:16-65 | the step-by-step upload (move, create, catch) keeps the invariant and gives the reply and the new state of `PdfController.UploadPdf` |
| `Handlers.PdfStore.RemoveTempIfPresent` | backend/controllers/pdfController.js:60-62 | the catch block unlinks the temporary path if a file is there and changes nothing else |
| `Handlers.PdfStore.GetAllPdfs` | backend/controllers/pdfController.js:70-78 | replies as `PdfController.GetAllPdfs` on the current state |
| `Handlers.PdfStore.GetPdfByUuid` | backend/controllers/pdfController.js:83-95 | replies as `PdfController.GetPdfByUuid` on the current state |
| `Handlers.PdfStore.DownloadPdf` | backend/controllers/pdfController.js:100-129 | replies as `PdfController.DownloadPdf` on the current state |
| `Handlers.PdfStore.DeletePdf` | backend/controllers/pdfController.js:134-156 | the step-by-step delete (find, unlink if present, delete record) keeps the invariant and matches `PdfController.DeletePdf` |
| `Handlers.PdfStore.RenamePdf` | backend/controllers/pdfController.js:161-183 | the step-by-step rename (check name, find, update the display name, save) keeps the invariant and matches `PdfController.RenamePdf` |

## Findings

| source | as written | input that shows it | evidently intended | confidence | as-written member | corrected member |
|---|---|---|---|---|---|---|
| backend/controllers/pdfController.js:57-62 | when `Pdf.create` throws after the move, the handler unlinks `req.file.path`, which the move has already emptied | a present temporary file, an unused uuid, and a database write that fails | the moved file `uuid + extname(originalname)` is removed, so no stored file is left without a record (the failure comment says so) | high; not executed | `PdfControllerProperties.UploadFailureOrphansFile` (about `PdfController.UploadPdf`) | `PdfControllerProperties.CompensatedUploadLeavesNoOrphan` (about `PdfController.UploadPdfCompensated`) |

The handler method `Handlers.PdfStore.UploadPdf` keeps the behaviour as written,
because it models what the code does.

## Left out

- HTTP and Express are not modelled. This covers routing, JSON bodies other than the status and the returned record, list or download, and response headers other than the display name's acceptance by `setHeader`, which `PdfController.HeaderSafe` models.
- Download streaming (`createReadStream`/`pipe`) is I/O. A download is modelled only as its status, the stored file and the display name in the disposition.
- Randomness of `uuidv4` is not modelled. The uuid is a parameter of the upload with the uuid's textual form. A reused uuid is not excluded: it makes `Create` fail as the unique index would.
- `Date.now` is a parameter `now`. Mongoose persistence, `async`/`await` and the internal `_id` are not modelled; records are identified by uuid.
- Failures are modelled only where the handlers have them: the move, the queries, the writes and the disposition header (`setHeader` rejects a display name holding any character other than tab, 0x20-0x7E and 0x80-0xFF). Exceptions from `existsSync`/`unlinkSync` during delete and from the stream during download are not modelled.
- The startup creation of the uploads directory (pdfController.js:8-11) is not modelled; the directory is assumed to exist. The commented-out text-extraction and embedding placeholder (pdfController.js:38-46) is not modelled either.
- `ExtName` models `path.extname` for a name without `/`. Node looks only after the last `/` and ignores trailing slashes; `ExtName` does not. A rename can put a `/` into a display name, and a later rename of that record then differs from Node: `ExtName("a.b/c")` is ".b/c" where Node gives "" (`Names.ExtNameAcrossSlash`).
- The upload middleware's configuration is not part of this model. Temporary paths and uploads-directory names are treated as separate name spaces.
- The rename's `newName` is a string or missing (`Option<string>`). Other falsy or non-string JSON values are not modelled.
- `UploadOrder.SortNewestFirst` orders records with equal upload dates in one fixed way. The database leaves that order open, and no contract depends on it.
- `PdfController.DownloadPdf`: its "200 exactly when the matching record's file is present" clause is stated for collections with unique uuids, which every reachable store has. Without uniqueness, `findOne` returns the first match and the clause would have to name that one.
- The schema's uuid default (Pdf.js:23) is not modelled, because the controller always supplies the uuid.
- Concurrency between requests is not modelled; each handler runs as one step on the store.
- backend/models/Highlight.js, backend/models/User.js, backend/routes/pdfRoutes.js, backend/server.js and backend/middleware/errorHandler.js are not part of this model. They hold schemas without operations here, password hashing, and HTTP wiring.
