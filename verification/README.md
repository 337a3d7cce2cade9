# pdf-vault core, modelled in Dafny

pdf-vault is a Django REST backend that stores PDF documents per user.
It validates uploads, extracts each document's metadata and text into the
document row, tracks extraction jobs and keeps an audit log.
This project models the logic of that backend and proves properties of it:

- the upload validator and the stream cursor it moves
  (`Serializers.ValidateFile` over a `Streams.FileObject`);
- the text assembly, normalisation and MD5 chunk loop of the extractor
  (`PdfExtractor`);
- the rows, defaults, upload path and tag constraint of `documents/models.py`
  (`Models`);
- the document filters (`Filters`) and the ownership check (`Permissions`);
- the views that change the database: upload, extract (with its job state
  machine), update, delete, tag creation and the per-user listings
  (`Views.Vault`, a class whose fields are the tables).

The Python string operations the code relies on are written out in `PyStr`.
That covers `strip` with Python's whitespace set, `splitlines` with its
line-break set and `"\r\n"` taken as one break, `"\n".join`, `lower` and
`str(n)`. `PyStr.SplitOnNewline` (Python's `split("\n")`) does not appear in
the code; it is there to state what the joined text consists of. Queryset
filtering, `.distinct()` and `order_by("-created_at", "id")` are in `Query`.
DRF's cleaning of a model `CharField` (strip, refuse blank, `max_length`, no
NUL) is `Serializers.CleanCharField`.

Inputs that come from outside the program are parameters:

- The PDF libraries become a `PdfSource` value: the metadata, the text of
  each page (`None` for a page that yields nothing or raises), and the bytes.
  A file they cannot open becomes `Err` with the exception text.
- `hashlib.md5` is a function parameter applied to the bytes the chunk loop
  read.
- `magic.from_buffer` is a function parameter, and `magicAvailable` says
  whether `import magic` succeeds.
- `timezone.now()` is a `Tick` (an integer) passed in: `now` for the request
  and `later` for the writes after extraction.
- A date filter bound is the tick of that date's midnight.

The model follows the code's behaviour in these places:

- `_normalize_text` strips both ends of every line, not only the right end.
- `validate_file` leaves an accepted upload's stream at offset 0, not where it was.
- The extension check comes before the signature check.
- Deleting a document deletes its jobs (`on_delete=CASCADE`).

## Model

| member | source | states |
|---|---|---|
| Serializers.Validate | documents/serializers.py:33-67 | The checks run in the order extension, size, signature, and the first failure is the one reported. The upload is accepted exactly when all three pass. No MIME verdict is ever returned. |
| Serializers.ValidateFile | documents/serializers.py:33-67 | The verdict equals `Validate`'s. After acceptance the cursor is at 0. After an extension or size rejection it is untouched. After a signature rejection it is restored when `tell` works, and otherwise left after the header. |
| Serializers.PdfExtensionIgnoresCase | documents/serializers.py:34-36 | A name passes the extension check exactly when it ends in "." followed by p, d, f in either case. |
| Serializers.SizeLimitIsInclusive | documents/serializers.py:37-39 | The limit is 20971520 bytes. Sizes 0 and exactly 20971520 pass; 20971521 is rejected as too large. |
| Serializers.SignatureIsPrefix | documents/serializers.py:45-55 | The signature check passes exactly when the file's first four bytes are "%PDF". |
| Serializers.HelloIsRejected | documents/serializers.py:35-55 | "notpdf.pdf" containing "hello" passes the extension and size checks and is rejected for its signature. |
| Serializers.CleanCharField | documents/serializers.py:17-21 | An accepted value is the stripped input, fits `max_length`, holds no NUL, and is blank only where blanks are allowed. A refusal lists at least one complaint: blank exactly when the input strips to "", too long exactly when the stripped input exceeds `max_length`, NUL exactly when it holds one. |
| Serializers.CharFieldVerdict | documents/serializers.py:17-21 | A value is accepted exactly when it is not all whitespace (unless blanks are allowed), its stripped form fits, and it holds no NUL anywhere. |
| Serializers.CleanIsIdempotent | documents/serializers.py:17-21 | Cleaning an accepted value again accepts it unchanged. |
| Serializers.CreateDocument | documents/serializers.py:69-80 | The new document is owned by the requester and keeps the upload's name as `original_filename`. It is stored at `document_upload_to`'s path, carries the given folder and tags, is unprocessed, has no page count and is consistent. |
| Streams.Window | documents/serializers.py:46-47 | `read(n)` returns at most n bytes, those after the cursor, and none past the end. |
| Streams.FileObject.Read | documents/serializers.py:47 | Reading returns the window at the old cursor and advances the cursor by its length. |
| Streams.FileObject.Tell | documents/serializers.py:42-44 | `tell` gives the cursor, or nothing on a stream where it raises. |
| Streams.FileObject.Seek | documents/serializers.py:46 | `seek(offset)` puts the cursor at offset. |
| PdfExtractor.NormalizeText | documents/services/pdf_extractor.py:10-15 | "" normalises to "". The result has no NUL, and every "\n"-separated line of it is stripped at both ends. |
| PdfExtractor.NormalizedLines | documents/services/pdf_extractor.py:14-15 | Line order is kept: the output's i-th line is the stripped i-th line of the NUL-free input. A text of NULs only gives "". |
| PdfExtractor.NormalizeIsNotIdempotent | documents/services/pdf_extractor.py:15 | "a\n\n" normalises to "a\n", which normalises to "a". |
| PdfExtractor.RemoveNul | documents/services/pdf_extractor.py:14 | The result has no NUL, is no longer than the input, and equals the input when it had none. |
| PdfExtractor.RemoveNulKeepsTheRest | documents/services/pdf_extractor.py:14 | `replace("\x00", "")` keeps exactly the characters other than NUL, in their order. |
| PdfExtractor.RemoveNulAppend | documents/services/pdf_extractor.py:14 | Removing NULs from two pieces of text one after the other gives the same as removing them from the whole. |
| PdfExtractor.NonEmptyTexts | documents/services/pdf_extractor.py:27-35 | The kept page texts are all non-empty and no more numerous than the pages. |
| PdfExtractor.NonEmptyTextsAppend | documents/services/pdf_extractor.py:29-35 | The texts of two runs of pages are the texts of each run, in page order. |
| PdfExtractor.FailedPageContributesNothing | documents/services/pdf_extractor.py:30-33 | A page whose extraction raised adds nothing, and the pages after it are still read. |
| PdfExtractor.CollectPageTexts | documents/services/pdf_extractor.py:27-35 | The page loop yields exactly the non-empty page texts in page order. |
| PdfExtractor.HashFile | documents/services/pdf_extractor.py:39-43 | The chunks are non-empty and at most 8192 bytes. All but the last are full. Together they are exactly the file's bytes, and the digest is that of those bytes. |
| PdfExtractor.FirstNonEmpty | documents/services/pdf_extractor.py:22-23 | The attribute wins when non-empty, then the dictionary entry, then "". |
| PdfExtractor.TitleOf | documents/services/pdf_extractor.py:21-22 | With no metadata the title is "". |
| PdfExtractor.AuthorOf | documents/services/pdf_extractor.py:21-23 | With no metadata the author is "". |
| PdfExtractor.EmptyFileExtraction | documents/services/pdf_extractor.py:18-51 | An openable file always yields a result. With no pages it has page count 0 and empty content; with no metadata, empty title and author. |
| PdfExtractor.SameBytesSameDigest | documents/services/pdf_extractor.py:39-43 | Files with the same bytes get the same digest. |
| PdfExtractor.ExtractMetadataAndText | documents/services/pdf_extractor.py:18-51 | The result is the specification `ExtractionOf`: failure to open is the error, and otherwise page count equals the number of pages. |
| Models.UploadTo | documents/models.py:7-9 | Every path starts with "documents/" and ends with "/" and the file name. |
| Models.OwnerSegment | documents/models.py:8 | The owner directory never contains "/". |
| Models.OwnerSegmentRoundTrip | documents/models.py:8 | The directory reads back as `user_<id>` for a truthy id, and as `anonymous` for a missing or zero one. |
| Models.UploadPathRoundTrip | documents/models.py:7-9 | A built path parses back into the truthy owner and the exact file name. |
| Models.UploadPathsSeparateOwners | documents/models.py:7-9 | Files of different owners, or of a user and of nobody, never share a path. |
| Models.InsertTag | documents/models.py:29-32 | Inserting a tag fails exactly when the owner already has a tag of that name. Every accepted table keeps the (owner, name) constraint. |
| Models.NewDocument | documents/models.py:39-52 | A new document is unprocessed with no page count, no tags and blank text fields. It is consistent when stored at its upload path. |
| Models.ParseStatus | documents/models.py:67-71 | Only the four status strings are accepted, and each reads back to its own value. |
| Models.StatusValueRoundTrip | documents/models.py:67-71 | Every status reads back from its stored string. |
| Models.NewExtractionJob | documents/models.py:73-79 | A new job defaults to QUEUED with no error and no start or finish time, which is consistent. So is RUNNING with a start time. |
| Filters.FilterQ | documents/filters.py:19-26 | An empty q returns the input. Any other q keeps exactly the documents whose title, original filename or text contains it ignoring case, as an ordered subsequence. |
| Filters.QIgnoresCase | documents/filters.py:22-26 | The search term's own case does not change the result. |
| Filters.TagJoin | documents/filters.py:33 | A document appears in the join exactly when one of its tags is named among the values. |
| Filters.FilterTag | documents/filters.py:28-33 | No values returns the input. Otherwise it keeps exactly the documents with a tag named among all the values, with no duplicates. |
| Filters.DistinctTagJoin | documents/filters.py:33 | `.distinct()` over the join leaves each tagged, not yet seen document once, in queryset order. |
| Filters.TagFilterIsSelect | documents/filters.py:28-33 | On rows without repeats, the tag filter is a plain order-preserving filter by tag name. |
| Filters.ApplyFiltersIsSelect | documents/filters.py:7-33 | Together the filters keep exactly the documents that every given filter accepts: q (stripped), tag (active when the last value is not blank), folder, processed, created_after (inclusive) and created_before (inclusive). The result is an ordered subsequence without duplicates. |
| Filters.BlankValuesAreIgnored | documents/filters.py:8-9 | The tag filter applies exactly when the last `tag` value is not all whitespace. A blank `q` keeps every document, and any other `q` is matched after stripping. |
| Permissions.EffectiveOwner | documents/permissions.py:6-8 | The object's own owner is used when present; otherwise the document's owner; otherwise none. |
| Permissions.HasObjectPermission | documents/permissions.py:5-9 | An object with its own owner is open exactly to that owner. Otherwise one with a document is open exactly to the document's owner. One with neither is refused. |
| Permissions.MethodIsIgnored | documents/permissions.py:5-9 | The HTTP method does not affect the decision. |
| Permissions.OwnerTakesPrecedence | documents/permissions.py:6-9 | The object's own owner overrides a different document owner. |
| Permissions.JobFollowsDocument | documents/permissions.py:7-9 | Were the check applied to a job, the job would be open exactly to its document's owner. The job views do not apply it; they filter by owner instead. |
| Permissions.OwnershipIsExclusive | documents/permissions.py:5-9 | No object is open to two different users. |
| Views.FindOwned | documents/views.py:24-47 | `get_object` finds the row with that key that the user owns and that passes the request's `DocumentFilter`, or reports that there is none. |
| Views.Vault.DetailMatchesList | documents/views.py:44-47 | A detail request finds a document exactly when the list under the same filters shows one with that key. |
| Views.DocumentEntry | documents/views.py:65-71 | An audit row records the user, action and DOCUMENT target type. Its target id is the document key written in decimal and reads back to it. |
| Views.RunningJob | documents/views.py:113 | A synchronous job for the document starts RUNNING, with a start time, no finish time and no error. |
| Views.Finish | documents/views.py:120-135 | A running job ends SUCCESS when there was no error, or FAILED with the error text. It gets a finish time, keeps its other fields, and stays consistent. |
| Views.WithExtracted | documents/views.py:115-119 | Extraction writes the five extracted fields, sets `is_processed` and refreshes `updated_at`. No other field changes, and a consistent document stays consistent. |
| Views.CleanText | documents/models.py:45-46 | A title or author left out of the request stays left out. A given one is accepted exactly when its `CharField` accepts it, and is then its stripped value. |
| Views.CleanPatch | documents/serializers.py:125-129 | The patch is accepted exactly when both named text fields are. It then carries their stripped values of at most 255 characters without NUL, and the folder and tags unchanged. A refusal names at least one field's complaints. |
| Views.ApplyPatch | documents/serializers.py:125-129 | An update writes only the named fields among title, author, folder and tags, plus `updated_at`. A consistent document stays consistent. |
| Views.ReplaceDocumentKeeps | documents/views.py:115-119 | Rewriting a document row in place keeps key order and every job attached. |
| Views.CascadeKeeps | documents/models.py:73 | Deleting a document with its jobs keeps key order, keys below the next ones, consistency and every remaining job attached. |
| Views.InsertKeepsTagTable | documents/models.py:29-32 | Storing a tag under the next key, when its owner has no tag of that name, keeps keys below the next one and the (owner, name) constraint. |
| Views.Vault.Log | documents/views.py:65-71 | An audit write appends one row under the next audit key and changes nothing else. |
| Views.Vault.AddJob | documents/views.py:113 | `ExtractionJob.objects.create` appends the job under the next job key and changes nothing else. |
| Views.Vault.SetDocument | documents/views.py:119 | Saving a document rewrites only its own row, and the tables stay valid. |
| Views.Vault.SetLastJob | documents/views.py:135 | Saving the job just created rewrites only that row, and the tables stay valid. |
| Views.Vault.AddTag | documents/views.py:29 | Saving a tag stores it under the next tag key and changes no other table. |
| Views.Vault.Upload | documents/views.py:61-74 | A valid upload appends the new document and one UPLOAD row with its file name. A rejected one reports the validator's reason and changes no table. The stream position stated is the one `validate_file` leaves. |
| Views.Vault.Extract | documents/views.py:96-136 | An unknown, foreign or filtered-out document changes nothing. Async appends a QUEUED job and one EXTRACT row with async=true and the job key. Sync success writes the extracted fields, appends a SUCCESS job and one EXTRACT row with async=false. Sync failure appends a FAILED job with the error text, leaves the document as it was and logs nothing. |
| Views.Vault.ExtractNow | documents/views.py:112-136 | The synchronous branch: on success the document gets the extracted fields, a SUCCESS job is appended and one EXTRACT row is logged. On failure a FAILED job carries the error text, the document is unchanged and nothing is logged. |
| Views.Vault.Update | documents/views.py:76-84 | An unknown, foreign or filtered-out document is not found, and a patch the serializer refuses is reported with its complaints; neither changes anything. Otherwise the document gets the cleaned patch, so a given title or author is stored stripped and at most 255 characters long, and one UPDATE row is appended. |
| Views.Vault.Destroy | documents/views.py:86-94 | One DELETE row is appended. The document and all its jobs are removed. A document the user does not own, or that the request's filters exclude, changes nothing. |
| Views.Vault.DeleteCascade | documents/models.py:73 | Deletion removes exactly the document and its jobs, and the tables stay valid. |
| Views.Vault.CreateTag | documents/views.py:28-30 | A name that is blank after stripping, longer than 100 characters or holding a NUL is refused with the serializer's complaints. A name the owner already has (after stripping) is refused by the database. Otherwise the stripped name is stored under a fresh key. Only the last case changes the tags. |
| Views.Vault.ListDocuments | documents/views.py:24-48 | The list holds exactly the user's documents that pass the filters, each once, in the default order (newest first). A `q` or last `tag` value that is only whitespace applies no filter. |
| Views.Vault.JobsVisibleTo | documents/views.py:158-159 | The job list holds exactly the jobs of the user's documents, each once, by `created_at` descending then key ascending. |
| Views.Vault.AuditVisibleTo | documents/views.py:166-167 | The audit list holds exactly the user's rows, each once, by `created_at` descending then key ascending. |
| Query.Select | documents/filters.py:22-26 | A filter keeps exactly the rows its predicate accepts. |
| Query.SelectIsSubsequence | documents/filters.py:22-26 | What a filter keeps stays in queryset order. |
| Query.SelectSelect | documents/filters.py:7-17 | Two chained filters are one filter by both predicates. |
| Query.Distinct | documents/filters.py:33 | `.distinct()` keeps every row and repeats none. |
| Query.SortNewestFirst | documents/views.py:159 | `order_by("-created_at", "id")` returns the same rows sorted newest first. |
| Query.PermutationKeepsNoDuplicates | documents/views.py:159 | Rearranging rows that have no repeats leaves no repeats. |
| Query.SortKeepsNoDuplicates | documents/views.py:159 | Sorting rows that have no repeats leaves no repeats. |
| Query.SortedNewestFirstUnique | documents/views.py:167 | With distinct keys the sorted order is unique. |
| PyStr.Strip | documents/services/pdf_extractor.py:15 | A stripped line is a contiguous slice of the line, and it neither starts nor ends with whitespace. |
| PyStr.StripDropsOnlySpace | documents/services/pdf_extractor.py:15 | Everything `strip` drops, before and after the slice it keeps, is whitespace. |
| PyStr.StripEmptyIffBlank | documents/filters.py:8-9 | A value strips to "" exactly when it is all whitespace. |
| PyStr.StripNulIff | documents/serializers.py:17-21 | Stripping never removes a NUL: the stripped value holds one exactly when the value does. |
| PyStr.StripOfStripped | documents/serializers.py:17-21 | A value without whitespace at either end strips to itself. |
| PyStr.SplitLines | documents/services/pdf_extractor.py:15 | `splitlines` of "" is empty, of anything else non-empty, and no line contains a break. |
| PyStr.SplitLinesRebuilds | documents/services/pdf_extractor.py:15 | The lines put together are the text without its line-break characters. There is one line per break ("\r\n" counting once), plus one for text after the last break. |
| PyStr.SplitLinesJoinRoundTrip | documents/services/pdf_extractor.py:15 | `splitlines` of a `"\n".join` of parts without line breaks gives back the parts when the last part is not empty. |
| PyStr.JoinLines | documents/services/pdf_extractor.py:15 | Joining no parts gives "". Otherwise the result is the parts' characters plus one separator between each two. |
| PyStr.SplitJoinRoundTrip | documents/services/pdf_extractor.py:15 | Splitting a `"\n".join` of parts without "\n" gives back the parts. |
| PyStr.NatToString | documents/views.py:69 | `str(n)` is a non-empty string of decimal digits without a leading zero. |
| PyStr.ParseNatToString | documents/models.py:8 | `str(n)` reads back as n. |

## Left out

- The PDF libraries (PyPDF2 and pdfplumber) are inputs, not code: what they report is the `PdfSource` value.
- One `pages` list in `PdfSource` stands for both libraries, so the model takes PyPDF2's page count (documents/services/pdf_extractor.py:24) and the number of pages pdfplumber iterates (documents/services/pdf_extractor.py:29) to agree. Files on which the two libraries disagree are not modelled.
- The MD5 algorithm is an uninterpreted function; only the 8192-byte chunk loop around it is modelled.
- libmagic is an input function. Its verdict cannot change the outcome, because the error it triggers is caught.
- `timezone.now()` values are integer ticks passed in; `auto_now` and `auto_now_add` are written out where the rows are built.
- Sync extraction takes the EXTRACT audit write inside the `try` to succeed. If it raised, the handler would mark a succeeded job FAILED; that path is not modelled.
- DRF's field-level checks before `validate_file` are not modelled: an empty file, the 100-character name limit (the default `max_length` of `Document.file`), and the model's `FileExtensionValidator`.
- The storage layer's renaming of colliding or unsafe file names is not modelled. The stored path is `document_upload_to`'s.
- Folder and tag ids in uploads and updates are taken as given. Their existence and ownership are not checked.
- PyStr.Lower: folds ASCII letters only, not Python's full Unicode `lower`. `icontains` is modelled the same way.
- Views.FindOwned: `get_object` also passes the queryset through the `search` and `ordering` backends; a `search` parameter on a detail request is not modelled, only `DocumentFilter`.
- Views.Vault.Upload: the stream position it promises is the one `validate_file` leaves. The storage layer reads the upload again during `serializer.save()`, and where that leaves the stream is not modelled.
- Serializers.CleanCharField: DRF's `ProhibitSurrogateCharactersValidator` is not written out, because a Dafny `char` is a Unicode scalar value and cannot be a surrogate. `max_length` counts characters, as Python's `len` does.
- Views.Vault.CreateTag: the duplicate-name refusal is the database's `IntegrityError`; the HTTP response it produces is not modelled.
- Views.Vault.ListDocuments: the `search` and `ordering` parameters that `search_fields` and `ordering_fields` (documents/views.py:49-50) enable are not modelled; the order given is the default `-created_at`, `id`. The settings that install those backends are not part of this model.
- Filters.ApplyFilters: a date bound is given as its midnight tick. Conversion of dates to datetimes and time zones is not modelled.
- HTTP status codes, serializer output, `download` with its DOWNLOAD audit row and `FileResponse`, and `get_file_url` are not modelled.
- `get_serializer_class`, URL routing and the `Folder` views are not modelled; they hold no logic.
- Concurrent requests are not modelled. Each view method runs alone on the tables.
- The queued-job worker is not modelled. QUEUED jobs are never started, because the code has no worker.
