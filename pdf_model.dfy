/**
 * The Pdf record: its fields, the schema's required fields and defaults,
 * and the unique index on `uuid`. `Create` is what `Pdf.create` does with a
 * new record against the collection it is inserted into.
 */
module PdfModel {
  import opened Common

  /** The owning user's id in textual form; "" stands for a missing value. */
  type UserId = string

  /** Milliseconds since the epoch, as `Date.now` gives them. */
  type Timestamp = int

  datatype Pdf = Pdf(
    user: UserId,
    originalName: string,       // the display name, changed by a rename
    fileName: string,           // the name of the stored file in the uploads directory
    uuid: string,               // the external identifier used in every route
    uploadDate: Timestamp,
    embeddingsGenerated: bool)

  /** The schema's `required: true` fields are present (Mongoose rejects an empty string). */
  predicate HasRequiredFields(p: Pdf)
  {
    p.user != "" && p.originalName != "" && p.fileName != "" && p.uuid != ""
  }

  predicate UniqueUuids(rs: seq<Pdf>)
  {
    forall i, j :: 0 <= i < j < |rs| ==> rs[i].uuid != rs[j].uuid
  }

  /** What the schema guarantees of every stored collection. */
  predicate Valid(rs: seq<Pdf>)
  {
    (forall i :: 0 <= i < |rs| ==> HasRequiredFields(rs[i])) && UniqueUuids(rs)
  }

  predicate UuidInUse(rs: seq<Pdf>, uuid: string)
  {
    exists i :: 0 <= i < |rs| && rs[i].uuid == uuid
  }

  datatype CreateError =
    | ValidationFailed    // a required field is missing
    | DuplicateKey        // the unique index on uuid already holds this uuid
    | WriteFailed         // the database did not accept the write

  /**
   * `Pdf.create` with the given fields at time `now` into collection `rs`;
   * `writeOk` is whether the database accepts the write. On success the
   * schema's defaults are filled in: `uploadDate` is `now` and
   * `embeddingsGenerated` is false.
   */
  function Create(rs: seq<Pdf>, user: UserId, originalName: string, fileName: string,
                  uuid: string, now: Timestamp, writeOk: bool): (r: Result<Pdf, CreateError>)
    ensures r.Success? <==>
              writeOk && user != "" && originalName != "" && fileName != "" && uuid != ""
              && !UuidInUse(rs, uuid)
    ensures r.Success? ==> r.value.user == user && r.value.originalName == originalName
                           && r.value.fileName == fileName && r.value.uuid == uuid
    ensures r.Success? ==> r.value.uploadDate == now && !r.value.embeddingsGenerated
    ensures r.Success? && Valid(rs) ==> Valid(rs + [r.value])
  {
    if user == "" || originalName == "" || fileName == "" || uuid == "" then
      Failure(ValidationFailed)
    else if UuidInUse(rs, uuid) then
      Failure(DuplicateKey)
    else if !writeOk then
      Failure(WriteFailed)
    else
      Success(Pdf(user, originalName, fileName, uuid, now, false))
  }
}
