/** The records of documents/models.py: documents, tags, extraction jobs and
    audit-log entries as rows, their field defaults, the job status choices,
    the tag uniqueness constraint and the upload-path builder. */
module Models {
  import opened Wrappers
  import opened PyStr
  import opened Query

  /** Primary keys. The database hands them out from 1 upwards. */
  type UserId = nat
  type DocumentId = nat
  type JobId = nat
  type TagId = nat
  type FolderId = nat
  type AuditId = nat

  /** A value of `timezone.now()`, opaque apart from its order. */
  type Tick = int

  // ------------------------------------------------------- upload path

  /** The directory `document_upload_to` picks: `user_<id>` for a truthy
      owner id, `anonymous` for a missing or zero one. */
  function OwnerSegment(ownerId: Option<nat>): (seg: string)
    ensures '/' !in seg
  {
    if ownerId.Some? && ownerId.value != 0 then
      var digits := NatToString(ownerId.value);
      assert forall k :: 0 <= k < |digits| ==> digits[k] != '/';
      "user_" + digits
    else "anonymous"
  }

  /** `document_upload_to(instance, filename)`. */
  function UploadTo(ownerId: Option<nat>, filename: string): (path: string)
    ensures |path| >= 11 && path[..10] == "documents/"
    ensures EndsWith(path, "/" + filename)
  {
    var path := "documents/" + OwnerSegment(ownerId) + "/" + filename;
    assert path[|path| - |filename| - 1..] == "/" + filename;
    path
  }

  /** The owner id as `document_upload_to` reads it: `None` unless truthy. */
  function TruthyOwner(ownerId: Option<nat>): Option<nat> {
    if ownerId.Some? && ownerId.value != 0 then ownerId else None
  }

  /** Reads an owner segment back: `Some(None)` for "anonymous",
      `Some(Some(id))` for "user_<digits>", `None` for anything else. */
  function ParseOwnerSegment(seg: string): Option<Option<nat>> {
    if seg == "anonymous" then Some(None)
    else if |seg| > 5 && seg[..5] == "user_"
            && forall k :: 5 <= k < |seg| ==> '0' <= seg[k] <= '9'
    then Some(Some(ParseDecimal(seg[5..])))
    else None
  }

  /** Splits an upload path into the owner it names and the file name. */
  function ParseUploadPath(path: string): Option<(Option<nat>, string)> {
    if |path| < 10 || path[..10] != "documents/" then None
    else
      var rest := path[10..];
      var i := IndexOf(rest, '/');
      if i == |rest| then None
      else
        match ParseOwnerSegment(rest[..i])
        case None => None
        case Some(owner) => Some((owner, rest[i + 1..]))
  }

  /** The owner segment reads back as the truthy owner id. */
  lemma OwnerSegmentRoundTrip(ownerId: Option<nat>)
    ensures ParseOwnerSegment(OwnerSegment(ownerId)) == Some(TruthyOwner(ownerId))
  {
    if ownerId.Some? && ownerId.value != 0 {
      var seg := OwnerSegment(ownerId);
      var digits := NatToString(ownerId.value);
      assert seg[5..] == digits;
      assert seg[0] == 'u';
      ParseNatToString(ownerId.value);
    }
  }

  /** The path `document_upload_to` builds can be read back: it names the
      (truthy) owner and the exact file name it was given. */
  lemma UploadPathRoundTrip(ownerId: Option<nat>, filename: string)
    ensures ParseUploadPath(UploadTo(ownerId, filename)) == Some((TruthyOwner(ownerId), filename))
  {
    var seg := OwnerSegment(ownerId);
    var path := UploadTo(ownerId, filename);
    var rest := path[10..];
    assert rest == seg + "/" + filename;
    assert forall k :: 0 <= k < |seg| ==> seg[k] != '/' by {
      forall k | 0 <= k < |seg| ensures seg[k] != '/' {
        assert seg[k] in seg;
      }
    }
    assert forall k :: 0 <= k < |seg| ==> rest[k] == seg[k];
    assert rest[|seg|] == '/';
    assert IndexOf(rest, '/') == |seg|;
    assert rest[..|seg|] == seg;
    assert rest[|seg| + 1..] == filename;
    OwnerSegmentRoundTrip(ownerId);
  }

  /** Files of two different users never share a path, whatever the names;
      nor do a user's files and anonymous ones. */
  lemma UploadPathsSeparateOwners(a: Option<nat>, b: Option<nat>, fa: string, fb: string)
    requires TruthyOwner(a) != TruthyOwner(b)
    ensures UploadTo(a, fa) != UploadTo(b, fb)
  {
    UploadPathRoundTrip(a, fa);
    UploadPathRoundTrip(b, fb);
  }

  // ------------------------------------------------------------- tags

  datatype Tag = Tag(id: TagId, owner: UserId, name: string, createdAt: Tick)

  /** `Tag.name` is a `CharField(max_length=100)`. */
  const TagNameMaxLength: nat := 100

  /** `Document.title` and `Document.author` are `CharField(max_length=255,
      blank=True)`. */
  const TextFieldMaxLength: nat := 255

  /** The `uniq_owner_tag_name` constraint: no two tag rows share both their
      owner and their name. */
  predicate TagsUnique(tags: map<TagId, Tag>) {
    forall a, b :: a in tags && b in tags && a != b ==>
      tags[a].owner != tags[b].owner || tags[a].name != tags[b].name
  }

  /** Whether `owner` already has a tag called `name`. */
  predicate HasTagNamed(tags: map<TagId, Tag>, owner: UserId, name: string) {
    exists t :: t in tags && tags[t].owner == owner && tags[t].name == name
  }

  /** Inserting a tag row: the database refuses it (`IntegrityError`, modelled
      as `None`) exactly when the owner already has a tag of that name, so the
      constraint holds of every table it accepts. */
  function InsertTag(tags: map<TagId, Tag>, tag: Tag): (r: Option<map<TagId, Tag>>)
    requires TagsUnique(tags) && tag.id !in tags
    ensures r.None? <==> HasTagNamed(tags, tag.owner, tag.name)
    ensures r.Some? ==> r.value == tags[tag.id := tag] && TagsUnique(r.value)
  {
    if exists t :: t in tags && tags[t].owner == tag.owner && tags[t].name == tag.name
    then None
    else Some(tags[tag.id := tag])
  }

  // -------------------------------------------------------- documents

  /** A `Document` row. `tags` holds the ids of the tag rows linked to it. */
  datatype Document = Document(
    id: DocumentId,
    owner: UserId,
    file: string,
    originalFilename: string,
    contentText: string,
    title: string,
    author: string,
    pageCount: Option<int>,
    md5: string,
    folder: Option<FolderId>,
    createdAt: Tick,
    updatedAt: Tick,
    isProcessed: bool,
    tags: set<TagId>)

  /** What every document row satisfies: it is stored under the path
      `document_upload_to` gives for its owner and original name, and it is
      only marked processed once a page count was recorded. */
  predicate DocumentConsistent(d: Document) {
    && d.file == UploadTo(Some(d.owner), d.originalFilename)
    && (d.isProcessed ==> d.pageCount.Some? && d.pageCount.value >= 0)
  }

  /** A document row as first saved: the given fields, and the model
      defaults for the rest (blank text fields, no page count, not
      processed, no tags). */
  function NewDocument(id: DocumentId, owner: UserId, file: string, originalFilename: string,
                       folder: Option<FolderId>, now: Tick): (d: Document)
    ensures !d.isProcessed && d.pageCount.None? && d.tags == {}
    ensures d.title == "" && d.author == "" && d.contentText == "" && d.md5 == ""
    ensures d.id == id && d.owner == owner && d.file == file
    ensures d.originalFilename == originalFilename && d.folder == folder
    ensures d.createdAt == now && d.updatedAt == now
    ensures file == UploadTo(Some(owner), originalFilename) ==> DocumentConsistent(d)
  {
    Document(id, owner, file, originalFilename, "", "", "", None, "", folder, now, now, false, {})
  }

  // ---------------------------------------------------- extraction jobs

  /** `ExtractionJob.Status`. */
  datatype Status = Queued | Running | Success | Failed

  /** The value stored in the `status` column. */
  function StatusValue(s: Status): string {
    match s
    case Queued => "QUEUED"
    case Running => "RUNNING"
    case Success => "SUCCESS"
    case Failed => "FAILED"
  }

  /** Reads a `status` column value; only the four choices are accepted. */
  function ParseStatus(v: string): (r: Option<Status>)
    ensures r.Some? <==> v in {"QUEUED", "RUNNING", "SUCCESS", "FAILED"}
    ensures r.Some? ==> StatusValue(r.value) == v
  {
    if v == "QUEUED" then Some(Queued)
    else if v == "RUNNING" then Some(Running)
    else if v == "SUCCESS" then Some(Success)
    else if v == "FAILED" then Some(Failed)
    else None
  }

  lemma {:induction false} StatusValueRoundTrip(s: Status)
    ensures ParseStatus(StatusValue(s)) == Some(s)
  {
    match s
    case Queued =>
    case Running =>
    case Success =>
    case Failed =>
  }

  predicate IsTerminal(s: Status) {
    s == Success || s == Failed
  }

  /** The status moves the code makes: a queued job may start, a running job
      ends in success or failure, and nothing leaves a terminal state. */
  predicate CanTransition(from: Status, to: Status) {
    (from == Queued && to == Running) || (from == Running && IsTerminal(to))
  }

  /** An `ExtractionJob` row. */
  datatype ExtractionJob = ExtractionJob(
    id: JobId,
    document: DocumentId,
    status: Status,
    errorMessage: Option<string>,
    startedAt: Option<Tick>,
    finishedAt: Option<Tick>,
    createdAt: Tick)

  /** How a job's timestamps and error follow its status: a start time
      exactly once it has left QUEUED, a finish time exactly once it is
      terminal, and an error message exactly when it FAILED. */
  predicate JobConsistent(j: ExtractionJob) {
    && (j.startedAt.Some? <==> j.status != Queued)
    && (j.finishedAt.Some? <==> IsTerminal(j.status))
    && (j.errorMessage.Some? <==> j.status == Failed)
  }

  /** `ExtractionJob.objects.create(document=..., **fields)`: the fields
      given, and the model defaults (QUEUED, no error, no start or finish
      time) for the others. */
  function NewExtractionJob(id: JobId, document: DocumentId, now: Tick,
                            status: Status := Queued, startedAt: Option<Tick> := None): (j: ExtractionJob)
    ensures j.id == id && j.document == document && j.createdAt == now
    ensures j.status == status && j.startedAt == startedAt
    ensures j.errorMessage.None? && j.finishedAt.None?
    ensures status == Queued && startedAt.None? ==> JobConsistent(j)
    ensures status == Running && startedAt.Some? ==> JobConsistent(j)
  {
    ExtractionJob(id, document, status, None, startedAt, None, now)
  }

  // ----------------------------------------------------------- audit log

  datatype Action = Upload | Extract | Update | Delete | Download
  datatype TargetType = DocumentTarget | FolderTarget | TagTarget

  /** The `meta` JSON objects the views write. */
  datatype AuditMeta =
    | NoMeta                                  // {}
    | FilenameMeta(filename: string)          // {"filename": ...}
    | ExtractMeta(isAsync: bool, jobId: JobId) // {"async": ..., "job_id": ...}

  datatype AuditEntry = AuditEntry(
    id: AuditId,
    owner: UserId,
    action: Action,
    targetType: TargetType,
    targetId: string,
    meta: AuditMeta,
    createdAt: Tick)

  /** Primary keys of the rows of each table. */
  function DocumentPk(d: Document): nat { d.id }
  function JobPk(j: ExtractionJob): nat { j.id }
  function AuditPk(e: AuditEntry): nat { e.id }

  /** `Meta.ordering = ["-created_at", "id"]` keys of each table. */
  function DocumentStamp(d: Document): Stamp { Stamp(d.createdAt, d.id) }
  function JobStamp(j: ExtractionJob): Stamp { Stamp(j.createdAt, j.id) }
  function AuditStamp(e: AuditEntry): Stamp { Stamp(e.createdAt, e.id) }
}
