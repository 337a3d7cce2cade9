/** documents/views.py: the document actions that change the database
    (upload, extract, update, delete, and tag creation through the tag view)
    and the per-user listings. The database is a `Vault` object whose
    tables are fields; rows are held in primary-key order. */
module Views {
  import opened Wrappers
  import opened PyStr
  import opened Query
  import opened Models
  import opened Streams
  import opened Serializers
  import opened PdfExtractor
  import opened Filters

  /** The index of the document with primary key `id` among those `user`
      owns that `passes` accepts: what `get_object` finds in the
      owner-filtered queryset after `filter_queryset` has applied
      `DocumentFilter` to it (`passes` is `Accepting(params, tags)`). */
  function FindOwned(docs: seq<Document>, id: DocumentId, user: UserId, passes: Document -> bool): (i: Option<nat>)
    ensures i.Some? ==> i.value < |docs| && docs[i.value].id == id && docs[i.value].owner == user
                        && passes(docs[i.value])
    ensures i.None? ==> forall d :: d in docs ==> !(d.id == id && d.owner == user && passes(d))
  {
    if docs == [] then None
    else if docs[0].id == id && docs[0].owner == user && passes(docs[0]) then Some(0)
    else
      match FindOwned(docs[1..], id, user, passes)
      case None => None
      case Some(k) => Some(k + 1)
  }

  /** The documents the request's filters let through. */
  function Accepting(params: FilterParams, tags: map<TagId, Tag>): Document -> bool {
    (d: Document) => Accepts(params, tags, d)
  }

  /** Some document row has primary key `id`. */
  predicate HasDocument(docs: seq<Document>, id: DocumentId) {
    exists d :: d in docs && d.id == id
  }

  /** The document row `id` exists and belongs to `user`. */
  predicate DocumentOwnedBy(docs: seq<Document>, id: DocumentId, user: UserId) {
    exists d :: d in docs && d.id == id && d.owner == user
  }

  /** Every job is attached to an existing document. */
  predicate JobsAttached(docs: seq<Document>, jobs: seq<ExtractionJob>) {
    forall j :: j in jobs ==> HasDocument(docs, j.document)
  }

  /** Every document and every job is consistent. */
  predicate RowsConsistent(docs: seq<Document>, jobs: seq<ExtractionJob>) {
    (forall d :: d in docs ==> DocumentConsistent(d)) && (forall j :: j in jobs ==> JobConsistent(j))
  }

  /** The tag table: every row under its own key, below the next key, and
      the uniqueness constraint. */
  predicate TagTableValid(tags: map<TagId, Tag>, nextTagId: TagId) {
    && (forall t :: t in tags ==> t < nextTagId && tags[t].id == t)
    && TagsUnique(tags)
  }

  /** Storing a tag with a clean name under the next key keeps the tag table
      valid. */
  lemma InsertKeepsTagTable(tags: map<TagId, Tag>, nextTagId: TagId, tag: Tag)
    requires TagTableValid(tags, nextTagId) && tag.id == nextTagId
    requires !HasTagNamed(tags, tag.owner, tag.name)
    ensures TagTableValid(tags[tag.id := tag], nextTagId + 1)
  {
  }

  /** The document and job tables: rows in primary-key order with keys below
      the next one handed out, every job attached to an existing document,
      and every row consistent. */
  predicate TablesValid(docs: seq<Document>, jobs: seq<ExtractionJob>, nextDoc: DocumentId, nextJob: JobId) {
    && KeysIncreasing(docs, DocumentPk) && (forall d :: d in docs ==> d.id < nextDoc)
    && KeysIncreasing(jobs, JobPk) && (forall j :: j in jobs ==> j.id < nextJob)
    && JobsAttached(docs, jobs) && RowsConsistent(docs, jobs)
  }

  /** Replacing a document row by one with the same key keeps the key
      order and every job attached. */
  lemma ReplaceDocumentKeeps(docs: seq<Document>, jobs: seq<ExtractionJob>, i: nat, d: Document)
    requires i < |docs| && d.id == docs[i].id
    requires KeysIncreasing(docs, DocumentPk) && JobsAttached(docs, jobs)
    ensures KeysIncreasing(docs[i := d], DocumentPk) && JobsAttached(docs[i := d], jobs)
    ensures forall x :: x in docs[i := d] ==> x == d || x in docs
  {
    var r := docs[i := d];
    assert forall k :: 0 <= k < |docs| ==> DocumentPk(r[k]) == DocumentPk(docs[k]);
    forall j | j in jobs ensures HasDocument(r, j.document) {
      var x :| x in docs && x.id == j.document;
      var k :| 0 <= k < |docs| && docs[k] == x;
      assert r[k].id == x.id && r[k] in r;
    }
  }

  /** Replacing the newest job row by one with the same key and document
      keeps the key order and the job attached. */
  lemma ReplaceLastJobKeeps(docs: seq<Document>, jobs: seq<ExtractionJob>, job: ExtractionJob)
    requires jobs != [] && job.id == jobs[|jobs| - 1].id && job.document == jobs[|jobs| - 1].document
    requires KeysIncreasing(jobs, JobPk) && JobsAttached(docs, jobs)
    ensures KeysIncreasing(jobs[..|jobs| - 1] + [job], JobPk)
    ensures JobsAttached(docs, jobs[..|jobs| - 1] + [job])
    ensures forall x :: x in jobs[..|jobs| - 1] + [job] ==> x == job || x in jobs
  {
    var last := |jobs| - 1;
    var r := jobs[..last] + [job];
    assert jobs[last] in jobs;
    assert forall k :: 0 <= k < |jobs| ==> JobPk(r[k]) == JobPk(jobs[k]);
    assert forall k :: 0 <= k < last ==> r[k] == jobs[k];
    forall x | x in r ensures x == job || x in jobs {
      var k :| 0 <= k < |r| && r[k] == x;
      if k < last {
        assert jobs[k] in jobs;
      }
    }
  }

  /** The rows a delete of document `docId` keeps. */
  function NotDocument(docId: DocumentId): Document -> bool {
    (d: Document) => d.id != docId
  }

  function NotJobOf(docId: DocumentId): ExtractionJob -> bool {
    (j: ExtractionJob) => j.document != docId
  }

  /** Deleting a document together with its jobs (`on_delete=CASCADE`)
      keeps the key order, and every remaining job attached. */
  lemma CascadeKeeps(docs: seq<Document>, jobs: seq<ExtractionJob>, docId: DocumentId,
                     docs': seq<Document>, jobs': seq<ExtractionJob>, nextDoc: DocumentId, nextJob: JobId)
    requires docs' == Select(docs, NotDocument(docId))
    requires jobs' == Select(jobs, NotJobOf(docId))
    requires TablesValid(docs, jobs, nextDoc, nextJob)
    ensures TablesValid(docs', jobs', nextDoc, nextJob)
  {
    SelectKeepsKeysIncreasing(docs, NotDocument(docId), DocumentPk);
    SelectKeepsKeysIncreasing(jobs, NotJobOf(docId), JobPk);
    forall j | j in jobs' ensures HasDocument(docs', j.document) {
      var x :| x in docs && x.id == j.document;
      assert x in docs';
    }
  }

  /** The audit row each view writes for a document. */
  function DocumentEntry(id: AuditId, user: UserId, action: Action, doc: DocumentId,
                         meta: AuditMeta, now: Tick): (e: AuditEntry)
    ensures e.owner == user && e.action == action && e.targetType == DocumentTarget
    ensures forall k :: 0 <= k < |e.targetId| ==> '0' <= e.targetId[k] <= '9'
    ensures ParseDecimal(e.targetId) == doc
  {
    ParseNatToString(doc);
    AuditEntry(id, user, action, DocumentTarget, NatToString(doc), meta, now)
  }

  /** The job a synchronous extraction starts with: RUNNING, started now. */
  function RunningJob(id: JobId, doc: DocumentId, now: Tick): (j: ExtractionJob)
    ensures j.status == Running && j.startedAt == Some(now) && JobConsistent(j)
    ensures j.id == id && j.document == doc && j.createdAt == now
    ensures j.errorMessage.None? && j.finishedAt.None?
  {
    NewExtractionJob(id, doc, now, Running, Some(now))
  }

  /** How a running job ends: SUCCESS when no error was raised, FAILED with
      the error's text otherwise, finished at `t` either way. Nothing else of
      the job changes, and it stays consistent. */
  function Finish(job: ExtractionJob, error: Option<string>, t: Tick): (r: ExtractionJob)
    requires job.status == Running && JobConsistent(job)
    ensures CanTransition(job.status, r.status) && IsTerminal(r.status)
    ensures r.status == Success <==> error.None?
    ensures r.errorMessage == error && r.finishedAt == Some(t)
    ensures r.id == job.id && r.document == job.document
    ensures r.startedAt == job.startedAt && r.createdAt == job.createdAt
    ensures JobConsistent(r)
  {
    if error.None? then job.(status := Success, finishedAt := Some(t))
    else job.(status := Failed, errorMessage := error, finishedAt := Some(t))
  }

  /** The `setattr` loop and `save(update_fields=...)` of a successful
      extraction: the five extracted fields, `is_processed` and `updated_at`
      are written and every other field is kept. A consistent document stays
      consistent. */
  function WithExtracted(d: Document, e: Extracted, t: Tick): (r: Document)
    ensures r.title == e.title && r.author == e.author && r.pageCount == Some(e.pageCount)
    ensures r.contentText == e.contentText && r.md5 == e.md5
    ensures r.isProcessed && r.updatedAt == t
    ensures r.(title := d.title, author := d.author, pageCount := d.pageCount,
               contentText := d.contentText, md5 := d.md5, isProcessed := d.isProcessed,
               updatedAt := d.updatedAt) == d
    ensures DocumentConsistent(d) ==> DocumentConsistent(r)
  {
    d.(title := e.title, author := e.author, pageCount := Some(e.pageCount),
       contentText := e.contentText, md5 := e.md5, isProcessed := true, updatedAt := t)
  }

  /** The writable fields of `DocumentUpdateSerializer`; a field left out of
      the request is `None`. */
  datatype Patch = Patch(title: Option<string>, author: Option<string>,
                         folder: Option<Option<FolderId>>, tags: Option<set<TagId>>)

  /** `serializer.save()` of an update: the fields the request names are
      written, `updated_at` is refreshed, and everything else is kept. */
  function ApplyPatch(d: Document, patch: Patch, t: Tick): (r: Document)
    ensures patch.title.Some? ==> r.title == patch.title.value
    ensures patch.author.Some? ==> r.author == patch.author.value
    ensures patch.folder.Some? ==> r.folder == patch.folder.value
    ensures patch.tags.Some? ==> r.tags == patch.tags.value
    ensures r.(title := d.title, author := d.author, folder := d.folder, tags := d.tags,
               updatedAt := d.updatedAt) == d
    ensures r.updatedAt == t
    ensures DocumentConsistent(d) ==> DocumentConsistent(r)
  {
    d.(title := if patch.title.Some? then patch.title.value else d.title,
       author := if patch.author.Some? then patch.author.value else d.author,
       folder := if patch.folder.Some? then patch.folder.value else d.folder,
       tags := if patch.tags.Some? then patch.tags.value else d.tags,
       updatedAt := t)
  }

  /** The complaints of `DocumentUpdateSerializer` about the two text fields. */
  datatype PatchErrors = PatchErrors(title: seq<FieldError>, author: seq<FieldError>)

  /** `title` or `author` as the update serializer cleans it: a field left
      out stays left out, a given one goes through its `CharField`. */
  function CleanText(v: Option<string>): (r: Result<Option<string>, seq<FieldError>>)
    ensures v.None? ==> r == Ok(None)
    ensures v.Some? ==> (r.Ok? <==> CleanCharField(v.value, TextFieldMaxLength, true).Ok?)
    ensures v.Some? && r.Ok? ==> r.value == Some(CleanCharField(v.value, TextFieldMaxLength, true).value)
    ensures v.Some? && r.Err? ==> r.error == CleanCharField(v.value, TextFieldMaxLength, true).error
  {
    match v
    case None => Ok(None)
    case Some(s) =>
      var c := CleanCharField(s, TextFieldMaxLength, true);
      if c.Ok? then Ok(Some(c.value)) else Err(c.error)
  }

  /** `serializer.is_valid()` of an update: the patch is accepted when both
      text fields it names are, and then carries their stripped values; the
      folder and tag fields pass through. Otherwise each field's complaints
      are reported. */
  function CleanPatch(patch: Patch): (r: Result<Patch, PatchErrors>)
    ensures r.Ok? <==> CleanText(patch.title).Ok? && CleanText(patch.author).Ok?
    ensures r.Ok? ==> r.value.folder == patch.folder && r.value.tags == patch.tags
    ensures r.Ok? ==> r.value.title.Some? == patch.title.Some? && r.value.author.Some? == patch.author.Some?
    ensures r.Ok? && patch.title.Some? ==>
              var t := r.value.title.value;
              t == Strip(patch.title.value) && IsStripped(t) && |t| <= TextFieldMaxLength && NoNul(t)
    ensures r.Ok? && patch.author.Some? ==>
              var a := r.value.author.value;
              a == Strip(patch.author.value) && IsStripped(a) && |a| <= TextFieldMaxLength && NoNul(a)
    ensures r.Err? ==> r.error.title != [] || r.error.author != []
  {
    var t, a := CleanText(patch.title), CleanText(patch.author);
    if t.Ok? && a.Ok? then Ok(patch.(title := t.value, author := a.value))
    else Err(PatchErrors(if t.Err? then t.error else [], if a.Err? then a.error else []))
  }

  /** What `update` answers. */
  datatype UpdateOutcome =
    | UpdateNotFound                       // 404 from `get_object`
    | UpdateInvalid(errors: PatchErrors)   // 400 from `is_valid`
    | Updated                              // 200 with the saved fields

  /** What `TagViewSet.create` answers. */
  datatype TagOutcome =
    | TagInvalid(errors: seq<FieldError>)  // 400 from `is_valid`
    | TagDuplicate                         // the database's `IntegrityError`
    | TagCreated(id: TagId)                // 201 with the new tag

  /** What `extract` answers. */
  datatype ExtractOutcome =
    | NotFound                              // 404 from `get_object`
    | QueuedJob(job: JobId)                 // 202 with the queued job
    | Processed(job: JobId)                 // 200 with the updated document
    | FailedWith(job: JobId, error: string) // 500 with the error text

  class Vault {
    /** `Document` rows. */
    var documents: seq<Document>
    /** `ExtractionJob` rows. */
    var jobs: seq<ExtractionJob>
    /** `AuditLog` rows. */
    var audit: seq<AuditEntry>
    /** `Tag` rows by primary key. */
    var tags: map<TagId, Tag>
    /** The primary keys the database hands out next. */
    var nextDocumentId: DocumentId
    var nextJobId: JobId
    var nextAuditId: AuditId
    var nextTagId: TagId

    /** What the tables satisfy between requests: rows in primary-key order
        with keys below the next one handed out, every job attached to an
        existing document, every row consistent, and the tag constraint. */
    predicate Valid()
      reads this
    {
      && TablesValid(documents, jobs, nextDocumentId, nextJobId)
      && KeysIncreasing(audit, AuditPk) && (forall e :: e in audit ==> e.id < nextAuditId)
      && TagTableValid(tags, nextTagId)
    }

    constructor ()
      ensures Valid()
      ensures documents == [] && jobs == [] && audit == [] && tags == map[]
    {
      documents, jobs, audit, tags := [], [], [], map[];
      nextDocumentId, nextJobId, nextAuditId, nextTagId := 1, 1, 1, 1;
    }

    /** Appends an audit row with the next audit key. */
    method Log(user: UserId, action: Action, doc: DocumentId, meta: AuditMeta, now: Tick)
      requires Valid()
      modifies this
      ensures Valid()
      ensures audit == old(audit) + [DocumentEntry(old(nextAuditId), user, action, doc, meta, now)]
      ensures nextAuditId == old(nextAuditId) + 1
      ensures documents == old(documents) && jobs == old(jobs) && tags == old(tags)
      ensures nextDocumentId == old(nextDocumentId) && nextJobId == old(nextJobId)
      ensures nextTagId == old(nextTagId)
    {
      var entry := DocumentEntry(nextAuditId, user, action, doc, meta, now);
      AppendKeepsKeysIncreasing(audit, entry, AuditPk);
      audit := audit + [entry];
      nextAuditId := nextAuditId + 1;
    }

    /** `DocumentViewSet.create`: the upload is validated; a valid one is
        stored as a new document of `user` and logged as UPLOAD with its
        file name. A rejected upload changes no table. */
    method Upload(file: FileObject, user: UserId, folder: Option<FolderId>, tagIds: set<TagId>,
                  magicAvailable: bool, sniff: seq<byte> -> string, now: Tick)
      returns (r: Result<DocumentId, Reason>)
      requires Valid()
      modifies this, file`pos
      ensures Valid()
      ensures var v := Validate(file.name, file.size, file.content);
              (v == Accepted <==> r.Ok?) && (v.Rejected? ==> r == Err(v.reason))
      ensures r.Err? ==> documents == old(documents) && audit == old(audit)
      ensures r.Ok? ==> r.value == old(nextDocumentId)
      ensures r.Ok? ==>
                documents == old(documents)
                  + [CreateDocument(old(nextDocumentId), user, file.name, folder, tagIds, now)]
      ensures r.Ok? ==>
                audit == old(audit)
                  + [DocumentEntry(old(nextAuditId), user, Action.Upload, old(nextDocumentId),
                                   FilenameMeta(file.name), now)]
      ensures jobs == old(jobs) && tags == old(tags)
      ensures r.Ok? ==> file.pos == 0
      ensures r == Err(InvalidExtension) || r == Err(TooLarge) ==> file.pos == old(file.pos)
      ensures r == Err(InvalidSignature) ==>
                file.pos == if file.tellable then old(file.pos) else |Header(file.content)|
    {
      var v := ValidateFile(file, magicAvailable, sniff);
      if v.Rejected? {
        return Err(v.reason);
      }
      var doc := CreateDocument(nextDocumentId, user, file.name, folder, tagIds, now);
      AppendKeepsKeysIncreasing(documents, doc, DocumentPk);
      documents := documents + [doc];
      nextDocumentId := nextDocumentId + 1;
      Log(user, Action.Upload, doc.id, FilenameMeta(doc.originalFilename), now);
      return Ok(doc.id);
    }

    /** Appends a job row with the next job key, for an existing document. */
    method AddJob(job: ExtractionJob)
      requires Valid()
      requires job.id == nextJobId && HasDocument(documents, job.document) && JobConsistent(job)
      modifies this
      ensures Valid()
      ensures jobs == old(jobs) + [job] && nextJobId == old(nextJobId) + 1
      ensures documents == old(documents) && audit == old(audit) && tags == old(tags)
      ensures nextDocumentId == old(nextDocumentId) && nextAuditId == old(nextAuditId)
      ensures nextTagId == old(nextTagId)
    {
      AppendKeepsKeysIncreasing(jobs, job, JobPk);
      jobs := jobs + [job];
      nextJobId := nextJobId + 1;
    }

    /** Stores a tag row under the next tag key; the database accepts it
        because its owner has no tag of that name yet. */
    method AddTag(tag: Tag)
      requires Valid()
      requires tag.id == nextTagId && !HasTagNamed(tags, tag.owner, tag.name)
      modifies this
      ensures Valid()
      ensures tags == old(tags)[tag.id := tag] && tag.id !in old(tags)
      ensures nextTagId == old(nextTagId) + 1
      ensures documents == old(documents) && jobs == old(jobs) && audit == old(audit)
      ensures nextDocumentId == old(nextDocumentId) && nextJobId == old(nextJobId)
      ensures nextAuditId == old(nextAuditId)
    {
      InsertKeepsTagTable(tags, nextTagId, tag);
      tags := tags[tag.id := tag];
      nextTagId := nextTagId + 1;
    }

    /** Overwrites the document row at `i` with a consistent row of the
        same key. */
    method SetDocument(i: nat, d: Document)
      requires Valid()
      requires i < |documents| && d.id == documents[i].id && DocumentConsistent(d)
      modifies this
      ensures Valid()
      ensures documents == old(documents)[i := d]
      ensures jobs == old(jobs) && audit == old(audit) && tags == old(tags)
      ensures nextDocumentId == old(nextDocumentId) && nextJobId == old(nextJobId)
      ensures nextAuditId == old(nextAuditId) && nextTagId == old(nextTagId)
    {
      ReplaceDocumentKeeps(documents, jobs, i, d);
      documents := documents[i := d];
    }

    /** Overwrites the newest job row with a consistent row of the same key
        and document. */
    method SetLastJob(job: ExtractionJob)
      requires Valid()
      requires jobs != [] && job.id == jobs[|jobs| - 1].id
      requires job.document == jobs[|jobs| - 1].document && JobConsistent(job)
      modifies this
      ensures Valid()
      ensures jobs == old(jobs)[..|old(jobs)| - 1] + [job]
      ensures documents == old(documents) && audit == old(audit) && tags == old(tags)
      ensures nextDocumentId == old(nextDocumentId) && nextJobId == old(nextJobId)
      ensures nextAuditId == old(nextAuditId) && nextTagId == old(nextTagId)
    {
      ReplaceLastJobKeeps(documents, jobs, job);
      jobs := jobs[..|jobs| - 1] + [job];
    }

    /** `DocumentViewSet.extract`. An asynchronous request queues a job and
        logs it. A synchronous one records a RUNNING job, runs the
        extractor, and then either writes the extracted fields, finishes the
        job with SUCCESS and logs it, or finishes the job with FAILED and the
        error text, writing nothing to the document and logging nothing.
        `now` is the time of the request, `later` that of the writes after
        extraction. */
    method Extract(docId: DocumentId, user: UserId, params: FilterParams, asyncFlag: bool, now: Tick, later: Tick,
                   source: Result<PdfSource, string>, md5: seq<byte> -> string)
      returns (outcome: ExtractOutcome)
      requires Valid()
      modifies this
      ensures Valid()
      ensures tags == old(tags)
      ensures FindOwned(old(documents), docId, user, Accepting(params, old(tags))).None? ==>
                outcome == NotFound && documents == old(documents) && jobs == old(jobs)
                && audit == old(audit)
      ensures FindOwned(old(documents), docId, user, Accepting(params, old(tags))).Some? && asyncFlag ==>
                && outcome == QueuedJob(old(nextJobId))
                && documents == old(documents)
                && jobs == old(jobs) + [NewExtractionJob(old(nextJobId), docId, now)]
                && audit == old(audit) + [DocumentEntry(old(nextAuditId), user, Action.Extract, docId,
                                                        ExtractMeta(true, old(nextJobId)), now)]
      ensures FindOwned(old(documents), docId, user, Accepting(params, old(tags))).Some? && !asyncFlag && source.Ok? ==>
                var i := FindOwned(old(documents), docId, user, Accepting(params, old(tags))).value;
                && outcome == Processed(old(nextJobId))
                && documents == old(documents)[i := WithExtracted(old(documents)[i],
                                                                  ExtractionOf(source, md5).value, later)]
                && jobs == old(jobs) + [Finish(RunningJob(old(nextJobId), docId, now), None, later)]
                && audit == old(audit) + [DocumentEntry(old(nextAuditId), user, Action.Extract, docId,
                                                        ExtractMeta(false, old(nextJobId)), later)]
      ensures FindOwned(old(documents), docId, user, Accepting(params, old(tags))).Some? && !asyncFlag && source.Err? ==>
                && outcome == FailedWith(old(nextJobId), source.error)
                && documents == old(documents)
                && jobs == old(jobs) + [Finish(RunningJob(old(nextJobId), docId, now),
                                               Some(source.error), later)]
                && audit == old(audit)
    {
      var found := FindOwned(documents, docId, user, Accepting(params, tags));
      if found.None? {
        return NotFound;
      }
      var i := found.value;
      if asyncFlag {
        var job := NewExtractionJob(nextJobId, docId, now, status := Status.Queued);
        AddJob(job);
        Log(user, Action.Extract, docId, ExtractMeta(true, job.id), now);
        return QueuedJob(job.id);
      }
      outcome := ExtractNow(i, user, now, later, source, md5);
    }

    /** The synchronous branch of `extract` on the document at row `i`: a
        RUNNING job is added, the text is extracted, and then either the
        document and the job are completed and an EXTRACT row is logged, or
        the job is marked FAILED with the error and nothing is logged. */
    method ExtractNow(i: nat, user: UserId, now: Tick, later: Tick,
                      source: Result<PdfSource, string>, md5: seq<byte> -> string)
      returns (outcome: ExtractOutcome)
      requires Valid() && i < |documents|
      modifies this
      ensures Valid()
      ensures tags == old(tags)
      ensures source.Ok? ==>
                && outcome == Processed(old(nextJobId))
                && documents == old(documents)[i := WithExtracted(old(documents)[i],
                                                                  ExtractionOf(source, md5).value, later)]
                && jobs == old(jobs) + [Finish(RunningJob(old(nextJobId), old(documents)[i].id, now), None, later)]
                && audit == old(audit) + [DocumentEntry(old(nextAuditId), user, Action.Extract,
                                                        old(documents)[i].id,
                                                        ExtractMeta(false, old(nextJobId)), later)]
      ensures source.Err? ==>
                && outcome == FailedWith(old(nextJobId), source.error)
                && documents == old(documents)
                && jobs == old(jobs) + [Finish(RunningJob(old(nextJobId), old(documents)[i].id, now),
                                               Some(source.error), later)]
                && audit == old(audit)
    {
      var document := documents[i];
      var job := RunningJob(nextJobId, document.id, now);
      AddJob(job);
      var data := ExtractMetadataAndText(document.file, source, md5);
      if data.Ok? {
        SetDocument(i, WithExtracted(document, data.value, later));
        SetLastJob(Finish(job, None, later));
        Log(user, Action.Extract, document.id, ExtractMeta(false, job.id), later);
        return Processed(job.id);
      } else {
        SetLastJob(Finish(job, Some(data.error), later));
        return FailedWith(job.id, data.error);
      }
    }

    /** `DocumentViewSet.update`/`partial_update`: `get_object`, then
        `is_valid`, then `perform_update`, which writes the cleaned fields of
        the user's document and logs an UPDATE row. An unknown or foreign
        document, or a patch the serializer refuses, changes nothing. */
    method Update(docId: DocumentId, user: UserId, params: FilterParams, patch: Patch, now: Tick) returns (r: UpdateOutcome)
      requires Valid()
      modifies this
      ensures Valid()
      ensures r.UpdateNotFound? <==> FindOwned(old(documents), docId, user, Accepting(params, old(tags))).None?
      ensures r.UpdateInvalid? <==> FindOwned(old(documents), docId, user, Accepting(params, old(tags))).Some? && CleanPatch(patch).Err?
      ensures r.UpdateInvalid? ==> r.errors == CleanPatch(patch).error
      ensures !r.Updated? ==> documents == old(documents) && audit == old(audit)
      ensures r.Updated? ==>
                var i, p := FindOwned(old(documents), docId, user, Accepting(params, old(tags))).value, CleanPatch(patch).value;
                && documents == old(documents)[i := ApplyPatch(old(documents)[i], p, now)]
                && (patch.title.Some? ==> documents[i].title == Strip(patch.title.value)
                                          && |documents[i].title| <= TextFieldMaxLength)
                && (patch.author.Some? ==> documents[i].author == Strip(patch.author.value)
                                           && |documents[i].author| <= TextFieldMaxLength)
                && audit == old(audit) + [DocumentEntry(old(nextAuditId), user, Action.Update, docId, NoMeta, now)]
      ensures jobs == old(jobs) && tags == old(tags)
    {
      var at := FindOwned(documents, docId, user, Accepting(params, tags));
      if at.None? {
        return UpdateNotFound;
      }
      var cleaned := CleanPatch(patch);
      if cleaned.Err? {
        return UpdateInvalid(cleaned.error);
      }
      SetDocument(at.value, ApplyPatch(documents[at.value], cleaned.value, now));
      Log(user, Action.Update, docId, NoMeta, now);
      return Updated;
    }

    /** `DocumentViewSet.destroy` through `perform_destroy`: a DELETE row is
        logged, then the document is deleted and its jobs with it
        (`on_delete=CASCADE`). An unknown or foreign document changes
        nothing. */
    method Destroy(docId: DocumentId, user: UserId, params: FilterParams, now: Tick) returns (found: bool)
      requires Valid()
      modifies this
      ensures Valid()
      ensures found <==> FindOwned(old(documents), docId, user, Accepting(params, old(tags))).Some?
      ensures !found ==> documents == old(documents) && jobs == old(jobs) && audit == old(audit)
      ensures found ==>
                && documents == Select(old(documents), NotDocument(docId))
                && jobs == Select(old(jobs), NotJobOf(docId))
                && audit == old(audit) + [DocumentEntry(old(nextAuditId), user, Action.Delete, docId, NoMeta, now)]
      ensures tags == old(tags)
    {
      var at := FindOwned(documents, docId, user, Accepting(params, tags));
      if at.None? {
        return false;
      }
      Log(user, Action.Delete, docId, NoMeta, now);
      DeleteCascade(docId);
      return true;
    }

    /** `instance.delete()`: the document row goes, and its jobs with it. */
    method DeleteCascade(docId: DocumentId)
      requires Valid()
      modifies this
      ensures Valid()
      ensures documents == Select(old(documents), NotDocument(docId))
      ensures jobs == Select(old(jobs), NotJobOf(docId))
      ensures audit == old(audit) && tags == old(tags)
    {
      var keptDocs := Select(documents, NotDocument(docId));
      var keptJobs := Select(jobs, NotJobOf(docId));
      CascadeKeeps(documents, jobs, docId, keptDocs, keptJobs, nextDocumentId, nextJobId);
      documents := keptDocs;
      jobs := keptJobs;
      assert TablesValid(documents, jobs, nextDocumentId, nextJobId);
    }

    /** `TagViewSet.create`: `is_valid` cleans the name as a `CharField`
        (stripped, not blank, at most 100 characters, no NUL), then
        `perform_create` stores a tag of `user` under the cleaned name unless
        the user already has a tag of that name, in which case the database
        refuses it. Only a stored tag changes anything. */
    method CreateTag(user: UserId, name: string, now: Tick) returns (r: TagOutcome)
      requires Valid()
      modifies this
      ensures Valid()
      ensures r.TagInvalid? <==> CleanCharField(name, TagNameMaxLength, false).Err?
      ensures r.TagInvalid? ==> r.errors == CleanCharField(name, TagNameMaxLength, false).error
      ensures r.TagDuplicate? <==> CleanCharField(name, TagNameMaxLength, false).Ok?
                                   && HasTagNamed(old(tags), user, Strip(name))
      ensures !r.TagCreated? ==> tags == old(tags)
      ensures r.TagCreated? ==>
                && r.id == old(nextTagId) && r.id !in old(tags)
                && tags == old(tags)[r.id := Tag(r.id, user, Strip(name), now)]
                && Strip(name) != "" && |Strip(name)| <= TagNameMaxLength && NoNul(Strip(name))
      ensures documents == old(documents) && jobs == old(jobs) && audit == old(audit)
    {
      var cleaned := CleanCharField(name, TagNameMaxLength, false);
      if cleaned.Err? {
        return TagInvalid(cleaned.error);
      }
      var tag := Tag(nextTagId, user, cleaned.value, now);
      var inserted := InsertTag(tags, tag);
      if inserted.None? {
        return TagDuplicate;
      }
      AddTag(tag);
      return TagCreated(tag.id);
    }

    /** `DocumentViewSet.list`: the user's documents that pass the filters,
        each once, newest first. */
    function ListDocuments(user: UserId, params: FilterParams): (r: seq<Document>)
      requires Valid()
      reads this
      ensures forall d :: d in r <==> d in documents && d.owner == user && Accepts(params, tags, d)
      ensures SortedNewestFirst(r, DocumentStamp) && NoDuplicates(r)
    {
      var owned := Select(documents, (d: Document) => d.owner == user);
      KeysIncreasingNoDuplicates(documents, DocumentPk);
      SelectKeepsNoDuplicates(documents, (d: Document) => d.owner == user);
      ApplyFiltersIsSelect(owned, tags, params);
      var filtered := ApplyFilters(owned, tags, params);
      SortKeepsNoDuplicates(filtered, DocumentStamp);
      SortNewestFirst(filtered, DocumentStamp)
    }

    /** A detail request finds a document exactly when the list under the
        same filters shows one with that key. */
    lemma DetailMatchesList(docId: DocumentId, user: UserId, params: FilterParams)
      requires Valid()
      ensures FindOwned(documents, docId, user, Accepting(params, tags)).Some?
              <==> exists d :: d in ListDocuments(user, params) && d.id == docId
    {
      var found := FindOwned(documents, docId, user, Accepting(params, tags));
      var listed := ListDocuments(user, params);
      if found.Some? {
        var d := documents[found.value];
        assert Accepting(params, tags)(d);
        assert d in listed;
      }
      if exists d :: d in listed && d.id == docId {
        var d :| d in listed && d.id == docId;
        assert Accepting(params, tags)(d);
      }
    }

    /** `ExtractionJobViewSet.get_queryset`: the jobs of the user's
        documents, each once, newest first, ties by ascending key. */
    function JobsVisibleTo(user: UserId): (r: seq<ExtractionJob>)
      requires Valid()
      reads this
      ensures forall j :: j in r <==> j in jobs && DocumentOwnedBy(documents, j.document, user)
      ensures SortedNewestFirst(r, JobStamp) && NoDuplicates(r)
    {
      var docs := documents;
      var visible := (j: ExtractionJob) => DocumentOwnedBy(docs, j.document, user);
      KeysIncreasingNoDuplicates(jobs, JobPk);
      SelectKeepsNoDuplicates(jobs, visible);
      SortKeepsNoDuplicates(Select(jobs, visible), JobStamp);
      SortNewestFirst(Select(jobs, visible), JobStamp)
    }

    /** `AuditLogViewSet.get_queryset`: the user's audit rows, each once,
        newest first, ties by ascending key. */
    function AuditVisibleTo(user: UserId): (r: seq<AuditEntry>)
      requires Valid()
      reads this
      ensures forall e :: e in r <==> e in audit && e.owner == user
      ensures SortedNewestFirst(r, AuditStamp) && NoDuplicates(r)
    {
      var mine := (e: AuditEntry) => e.owner == user;
      KeysIncreasingNoDuplicates(audit, AuditPk);
      SelectKeepsNoDuplicates(audit, mine);
      SortKeepsNoDuplicates(Select(audit, mine), AuditStamp);
      SortNewestFirst(Select(audit, mine), AuditStamp)
    }
  }
}
