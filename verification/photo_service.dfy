/**
 * The photo-restoration endpoints: admission of an upload, the job record
 * and its lifecycle (`processing`, then `completed` or `failed`), the
 * restoration step, and the gating of status and download requests.
 *
 * The document collection `photo_restorations` is the map `jobs`, keyed by
 * the record's `id`; the directory of restored images is the map `blobs`,
 * keyed by file name.
 */
module PhotoService {
  import opened Common
  import opened Text

  /** The `status` field of a record. */
  datatype Status = Processing | Completed | Failed

  /** A wall-clock duration in seconds; its value is never inspected. */
  type Seconds = r: real | r >= 0.0

  /** A `PhotoRestoration` record as stored; `createdAt` is the ISO text of the creation time. */
  datatype Record = Record(
    id: string,
    originalFilename: string,
    restoredFilename: string,
    status: Status,
    createdAt: string,
    processingTime: Option<Seconds>,
    errorMessage: Option<string>)

  /** An `HTTPException`: status code and detail text. */
  datatype HttpError = HttpError(code: int, detail: string)

  /** What `upload_photo` receives: the part's content type, its file name and its bytes. */
  datatype UploadFile = UploadFile(contentType: Option<string>, filename: Option<string>, data: seq<byte>)

  /**
   * What the upload takes from outside the program: the fresh `uuid4` text,
   * the creation time, the measured restoration time, and the error raised
   * by writing the restored file, if writing fails.
   */
  datatype Run = Run(id: string, createdAt: string, elapsed: Seconds, writeError: Option<string>)

  /** A file served by the download endpoint. */
  datatype Attachment = Attachment(data: seq<byte>, mediaType: string, filename: string)

  /** Smallest accepted upload, in bytes. */
  const MinSize := 100

  /** Largest accepted upload, in bytes: 10 MiB. */
  const MaxSize := 10 * 1024 * 1024

  const NotAnImage := HttpError(400, "File must be an image")
  const TooSmall := HttpError(400, "Image file is too small or corrupted")
  const TooLarge := HttpError(400, "Image file is too large (max 10MB)")
  const RecordNotFound := HttpError(404, "Restoration not found")
  const NotCompleted := HttpError(400, "Photo restoration not completed yet")
  const FileNotFound := HttpError(404, "Restored image file not found")

  /** A present content type that starts with `image/`. */
  predicate IsImageType(contentType: Option<string>)
  {
    contentType.Some? && StartsWith(contentType.value, "image/")
  }

  /**
   * The checks `upload_photo` makes before anything is stored, in their
   * order: the content type, then the lower and the upper size bound.
   */
  function Admission(contentType: Option<string>, size: nat): (r: Option<HttpError>)
    ensures r.None? <==> IsImageType(contentType) && MinSize <= size <= MaxSize
    ensures r.Some? ==> r.value.code == 400
    ensures !IsImageType(contentType) ==> r == Some(NotAnImage)
  {
    if !IsImageType(contentType) then Some(NotAnImage)
    else if size < MinSize then Some(TooSmall)
    else if size > MaxSize then Some(TooLarge)
    else None
  }

  /** The boundaries of admission for an image: 99 and 10 MiB + 1 bytes are refused, 100 and 10 MiB accepted. */
  lemma AdmissionBoundaries(contentType: Option<string>)
    requires IsImageType(contentType)
    ensures Admission(contentType, 99) == Some(TooSmall)
    ensures Admission(contentType, 100).None?
    ensures Admission(contentType, 10485760).None?
    ensures Admission(contentType, 10485761) == Some(TooLarge)
  {
  }

  /** `file.filename or "unknown.jpg"`: a missing or empty name falls back. */
  function OriginalName(filename: Option<string>): (r: string)
    ensures r != []
    ensures filename.Some? && filename.value != [] ==> r == filename.value
    ensures filename.None? || filename.value == [] ==> r == "unknown.jpg"
  {
    if filename.None? || filename.value == [] then "unknown.jpg" else filename.value
  }

  /** The stored name of a job's restored image, derived from the id alone. */
  function RestoredName(id: string): (r: string)
  {
    "restored_" + id + ".jpg"
  }

  /** Distinct jobs never share a restored file. */
  lemma RestoredNameInjective(a: string, b: string)
    requires RestoredName(a) == RestoredName(b)
    ensures a == b
  {
    var n := |"restored_"|;
    assert |a| == |b|;
    assert a == RestoredName(a)[n..n + |a|];
    assert b == RestoredName(b)[n..n + |b|];
  }

  /** `restore_photo_with_ai`: a placeholder that hands back the image it is given. */
  function Restore(data: seq<byte>, filename: string): (r: seq<byte>)
    ensures r == data
  {
    data
  }

  /** The status fields agree: a time exactly when completed, a message exactly when failed. */
  predicate StatusConsistent(r: Record)
  {
    match r.status
    case Processing => r.processingTime.None? && r.errorMessage.None?
    case Completed => r.processingTime.Some? && r.errorMessage.None?
    case Failed => r.processingTime.None? && r.errorMessage.Some?
  }

  /** A record stored under `id` carries that id, the derived file name, and consistent status fields. */
  predicate WellFormed(id: string, r: Record)
  {
    r.id == id && r.restoredFilename == RestoredName(id) && StatusConsistent(r)
  }

  /** The store's invariant: every record is well formed, and a completed job's image is stored. */
  ghost predicate StoreInvariant(jobs: map<string, Record>, blobs: map<string, seq<byte>>)
  {
    forall k :: k in jobs ==> WellFormed(k, jobs[k]) && (jobs[k].status == Completed ==> jobs[k].restoredFilename in blobs)
  }

  /** The record `upload_photo` creates and inserts before restoring. */
  function NewRecord(id: string, filename: Option<string>, createdAt: string): (r: Record)
    ensures WellFormed(id, r) && r.status == Processing
    ensures r.originalFilename == OriginalName(filename) && r.createdAt == createdAt
  {
    Record(id, OriginalName(filename), RestoredName(id), Processing, createdAt, None, None)
  }

  /** The `$set` of a successful restoration: status and time, nothing else. */
  function MarkCompleted(r: Record, time: Seconds): (c: Record)
    ensures c.status == Completed && c.processingTime == Some(time)
    ensures r.status == Processing && StatusConsistent(r) ==> StatusConsistent(c)
    ensures c.(status := r.status, processingTime := r.processingTime) == r
  {
    r.(status := Completed, processingTime := Some(time))
  }

  /** The `$set` of a failed restoration: status and message, nothing else. */
  function MarkFailed(r: Record, message: string): (f: Record)
    ensures f.status == Failed && f.errorMessage == Some(message)
    ensures r.status == Processing && StatusConsistent(r) ==> StatusConsistent(f)
    ensures f.(status := r.status, errorMessage := r.errorMessage) == r
  {
    r.(status := Failed, errorMessage := Some(message))
  }

  /** The state after an upload and the response it gives. */
  datatype Effect = Effect(jobs: map<string, Record>, blobs: map<string, seq<byte>>, response: Result<Record, HttpError>)

  /** The whole of `upload_photo`, as a function of the state before it. */
  function UploadEffect(jobs: map<string, Record>, blobs: map<string, seq<byte>>, file: UploadFile, run: Run): (e: Effect)
  {
    match Admission(file.contentType, |file.data|)
    case Some(err) => Effect(jobs, blobs, Failure(err))
    case None =>
      var created := NewRecord(run.id, file.filename, run.createdAt);
      var restored := Restore(file.data, OriginalName(file.filename));
      match run.writeError
      case None =>
        var done := MarkCompleted(created, run.elapsed);
        Effect(jobs[run.id := done], blobs[created.restoredFilename := restored], Success(done))
      case Some(message) =>
        var failed := MarkFailed(created, message);
        Effect(jobs[run.id := failed], blobs, Success(failed))
  }

  /** `get_restoration_status`: the stored record, or 404. */
  function GetStatus(jobs: map<string, Record>, id: string): (r: Result<Record, HttpError>)
    ensures r.Success? <==> id in jobs
    ensures r.Success? ==> r.value == jobs[id]
    ensures r.Failure? ==> r.error == RecordNotFound
  {
    if id in jobs then Success(jobs[id]) else Failure(RecordNotFound)
  }

  /**
   * `download_restored_photo`: 404 for an unknown id, 400 for a job that is
   * not completed, 404 when a completed job's file is missing, otherwise the
   * stored file as a JPEG attachment named after it.
   */
  function Download(jobs: map<string, Record>, blobs: map<string, seq<byte>>, id: string): (r: Result<Attachment, HttpError>)
    ensures r.Success? <==> id in jobs && jobs[id].status == Completed && jobs[id].restoredFilename in blobs
    ensures r.Success? ==> r.value == Attachment(blobs[jobs[id].restoredFilename], "image/jpeg", jobs[id].restoredFilename)
    ensures id !in jobs ==> r == Failure(RecordNotFound)
    ensures id in jobs && jobs[id].status != Completed ==> r == Failure(NotCompleted)
    ensures id in jobs && jobs[id].status == Completed && jobs[id].restoredFilename !in blobs ==> r == Failure(FileNotFound)
  {
    if id !in jobs then Failure(RecordNotFound)
    else
      var record := jobs[id];
      if record.status != Completed then Failure(NotCompleted)
      else if record.restoredFilename !in blobs then Failure(FileNotFound)
      else
        var name := record.restoredFilename;
        Success(Attachment(blobs[name], "image/jpeg", name))
  }

  /** Until a job is completed, the answer to a download does not depend on the stored files. */
  lemma DownloadIgnoresBlobsUntilCompleted(jobs: map<string, Record>, blobs1: map<string, seq<byte>>, blobs2: map<string, seq<byte>>, id: string)
    requires id !in jobs || jobs[id].status != Completed
    ensures Download(jobs, blobs1, id) == Download(jobs, blobs2, id)
  {
  }

  /** A refused upload answers 400 and changes neither the records nor the files. */
  lemma UploadRefused(jobs: map<string, Record>, blobs: map<string, seq<byte>>, file: UploadFile, run: Run)
    requires Admission(file.contentType, |file.data|).Some?
    ensures UploadEffect(jobs, blobs, file, run) == Effect(jobs, blobs, Failure(Admission(file.contentType, |file.data|).value))
    ensures UploadEffect(jobs, blobs, file, run).response.error.code == 400
  {
  }

  /**
   * An accepted upload answers with the record it stored under the new id:
   * the derived names, `completed` with the time when the file was written,
   * `failed` with the write error otherwise; never left `processing`.
   */
  lemma UploadAccepted(jobs: map<string, Record>, blobs: map<string, seq<byte>>, file: UploadFile, run: Run, e: Effect)
    requires Admission(file.contentType, |file.data|).None?
    requires e == UploadEffect(jobs, blobs, file, run)
    ensures e.response.Success? && run.id in e.jobs && e.jobs[run.id] == e.response.value
    ensures WellFormed(run.id, e.response.value)
    ensures e.response.value.originalFilename == OriginalName(file.filename)
    ensures e.response.value.createdAt == run.createdAt
    ensures e.response.value.status != Processing
    ensures e.response.value.status == Completed <==> run.writeError.None?
    ensures run.writeError.None? ==>
      e.response.value.processingTime == Some(run.elapsed) && e.blobs == blobs[RestoredName(run.id) := file.data]
    ensures run.writeError.Some? ==> e.response.value.errorMessage == run.writeError && e.blobs == blobs
  {
  }

  /** After an upload whose file was written, downloading the job returns exactly the uploaded bytes. */
  lemma UploadThenDownload(jobs: map<string, Record>, blobs: map<string, seq<byte>>, file: UploadFile, run: Run, e: Effect)
    requires Admission(file.contentType, |file.data|).None? && run.writeError.None?
    requires e == UploadEffect(jobs, blobs, file, run)
    ensures Download(e.jobs, e.blobs, run.id) == Success(Attachment(file.data, "image/jpeg", RestoredName(run.id)))
  {
  }

  /** An upload touches no other job: its record, its status answer and its download answer stay as they were. */
  lemma UploadKeepsOtherJobs(jobs: map<string, Record>, blobs: map<string, seq<byte>>, file: UploadFile, run: Run, e: Effect, other: string)
    requires StoreInvariant(jobs, blobs) && other != run.id
    requires e == UploadEffect(jobs, blobs, file, run)
    ensures other in e.jobs <==> other in jobs
    ensures other in jobs ==> e.jobs[other] == jobs[other]
    ensures GetStatus(e.jobs, other) == GetStatus(jobs, other)
    ensures Download(e.jobs, e.blobs, other) == Download(jobs, blobs, other)
  {
    if other in jobs && Admission(file.contentType, |file.data|).None? && run.writeError.None? {
      if RestoredName(run.id) == jobs[other].restoredFilename {
        RestoredNameInjective(run.id, other);
      }
    }
  }

  /** Uploading a fresh id keeps the store's invariant. */
  lemma UploadKeepsInvariant(jobs: map<string, Record>, blobs: map<string, seq<byte>>, file: UploadFile, run: Run)
    requires StoreInvariant(jobs, blobs) && run.id !in jobs
    ensures StoreInvariant(UploadEffect(jobs, blobs, file, run).jobs, UploadEffect(jobs, blobs, file, run).blobs)
  {
  }

  /** The database collection and the image directory. */
  class PhotoStore {
    var jobs: map<string, Record>
    var blobs: map<string, seq<byte>>

    ghost predicate Valid()
      reads this
    {
      StoreInvariant(jobs, blobs)
    }

    /** A store over the collection and the storage directory as they already are. */
    constructor (records: map<string, Record>, files: map<string, seq<byte>>)
      ensures jobs == records && blobs == files
      ensures StoreInvariant(records, files) ==> Valid()
    {
      jobs := records;
      blobs := files;
    }

    /** `insert_one` of a record under its id. */
    method Insert(record: Record)
      requires record.id !in jobs
      modifies this
      ensures jobs == old(jobs)[record.id := record] && blobs == old(blobs)
    {
      jobs := jobs[record.id := record];
    }

    /** `update_one` setting `status` to completed and `processing_time`; no matching record changes nothing. */
    method SetCompleted(id: string, time: Seconds)
      modifies this
      ensures id in old(jobs) ==> jobs == old(jobs)[id := MarkCompleted(old(jobs)[id], time)]
      ensures id !in old(jobs) ==> jobs == old(jobs)
      ensures blobs == old(blobs)
    {
      if id in jobs {
        jobs := jobs[id := MarkCompleted(jobs[id], time)];
      }
    }

    /** `update_one` setting `status` to failed and `error_message`; no matching record changes nothing. */
    method SetFailed(id: string, message: string)
      modifies this
      ensures id in old(jobs) ==> jobs == old(jobs)[id := MarkFailed(old(jobs)[id], message)]
      ensures id !in old(jobs) ==> jobs == old(jobs)
      ensures blobs == old(blobs)
    {
      if id in jobs {
        jobs := jobs[id := MarkFailed(jobs[id], message)];
      }
    }

    /** Writing a file of the image directory, replacing any file of that name. */
    method WriteFile(name: string, data: seq<byte>)
      modifies this
      ensures blobs == old(blobs)[name := data] && jobs == old(jobs)
    {
      blobs := blobs[name := data];
    }

    /**
     * `upload_photo`: admission, then the record inserted as `processing`,
     * the restoration, the file write and the terminal update, step by step.
     */
    method Upload(file: UploadFile, run: Run) returns (response: Result<Record, HttpError>, ghost inserted: map<string, Record>)
      requires run.id !in jobs
      modifies this
      ensures Effect(jobs, blobs, response) == UploadEffect(old(jobs), old(blobs), file, run)
      ensures Admission(file.contentType, |file.data|).Some? ==> inserted == old(jobs)
      ensures Admission(file.contentType, |file.data|).None? ==>
        inserted == old(jobs)[run.id := NewRecord(run.id, file.filename, run.createdAt)]
      ensures old(Valid()) ==> Valid()
    {
      ghost var jobs0, blobs0 := jobs, blobs;
      inserted := jobs;
      var refusal := Admission(file.contentType, |file.data|);
      if refusal.Some? {
        return Failure(refusal.value), inserted;
      }
      var restoration := NewRecord(run.id, file.filename, run.createdAt);
      Insert(restoration);
      inserted := jobs;
      var restored := Restore(file.data, OriginalName(file.filename));
      match run.writeError {
        case None =>
          WriteFile(restoration.restoredFilename, restored);
          SetCompleted(run.id, run.elapsed);
          restoration := MarkCompleted(restoration, run.elapsed);
        case Some(message) =>
          SetFailed(run.id, message);
          restoration := MarkFailed(restoration, message);
      }
      response := Success(restoration);
      if StoreInvariant(jobs0, blobs0) {
        UploadKeepsInvariant(jobs0, blobs0, file, run);
      }
    }
  }
}
