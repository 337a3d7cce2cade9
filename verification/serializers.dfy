/** documents/serializers.py: the upload validator `validate_file` of
    `DocumentUploadSerializer`, and the document its `create` builds. */
module Serializers {
  import opened Wrappers
  import opened PyStr
  import opened Streams
  import opened Models

  /** `MAX_UPLOAD_SIZE`: 20 MiB. */
  const MaxUploadSize: nat := 20 * 1024 * 1024

  /** The signature a PDF file starts with: the bytes of "%PDF". */
  const PdfMagic: seq<byte> := [0x25, 0x50, 0x44, 0x46]

  const PdfMime: string := "application/pdf"

  /** Why an upload is refused. `InvalidMime` is raised by the code but never
      reaches the caller (see `ValidateFile`). */
  datatype Reason = InvalidExtension | TooLarge | InvalidSignature | InvalidMime

  datatype Verdict = Accepted | Rejected(reason: Reason)

  /** `filename.lower().endswith('.pdf')`. */
  predicate HasPdfExtension(name: string) {
    EndsWith(Lower(name), ".pdf")
  }

  /** `size and size > MAX_UPLOAD_SIZE`: a size of 0 counts as unknown. */
  predicate ExceedsLimit(size: nat) {
    size != 0 && size > MaxUploadSize
  }

  /** `value.read(5)` after `value.seek(0)`. */
  function Header(content: seq<byte>): (h: seq<byte>)
    ensures |h| <= 5
  {
    Window(content, 0, 5)
  }

  /** `header.startswith(b'%PDF')`. */
  predicate HasPdfSignature(header: seq<byte>) {
    |header| >= 4 && header[..4] == PdfMagic
  }

  /** The decision `validate_file` reaches for a file of this name, declared
      size and content: the checks run in the order extension, size,
      signature, and the first that fails is the one reported. No MIME
      verdict can come out of it. */
  function Validate(name: string, size: nat, content: seq<byte>): (v: Verdict)
    ensures v != Rejected(InvalidMime)
    ensures v == Accepted <==>
              HasPdfExtension(name) && !ExceedsLimit(size) && HasPdfSignature(Header(content))
    ensures v == Rejected(InvalidExtension) <==> !HasPdfExtension(name)
    ensures v == Rejected(TooLarge) <==> HasPdfExtension(name) && ExceedsLimit(size)
    ensures v == Rejected(InvalidSignature) <==>
              HasPdfExtension(name) && !ExceedsLimit(size) && !HasPdfSignature(Header(content))
  {
    if !HasPdfExtension(name) then Rejected(InvalidExtension)
    else if ExceedsLimit(size) then Rejected(TooLarge)
    else if !HasPdfSignature(Header(content)) then Rejected(InvalidSignature)
    else Accepted
  }

  /** `DocumentUploadSerializer.validate_file`. `magicAvailable` says whether
      `import magic` succeeds and `sniff` stands for `magic.from_buffer`.
      Whatever the sniffed type, the `ValidationError` raised for a mismatch
      is an `Exception` and the `except Exception` around it catches it, so
      the verdict is `Validate`'s. The cursor is untouched by an extension or
      size rejection, put back where it was by a signature rejection (when
      the stream can `tell`), and left at offset 0 on acceptance. */
  method ValidateFile(file: FileObject, magicAvailable: bool, sniff: seq<byte> -> string)
    returns (v: Verdict)
    modifies file`pos
    ensures v == Validate(file.name, file.size, file.content)
    ensures v == Accepted ==> file.pos == 0
    ensures v == Rejected(InvalidExtension) || v == Rejected(TooLarge) ==> file.pos == old(file.pos)
    ensures v == Rejected(InvalidSignature) && file.tellable ==> file.pos == old(file.pos)
    ensures v == Rejected(InvalidSignature) && !file.tellable ==> file.pos == |Header(file.content)|
  {
    var filename := file.name;
    if !EndsWith(Lower(filename), ".pdf") {
      return Rejected(InvalidExtension);
    }
    var size := file.size;
    if size != 0 && size > MaxUploadSize {
      return Rejected(TooLarge);
    }
    // Quick signature check, restoring the cursor afterwards when it is known.
    var pos := file.Tell();
    file.Seek(0);
    var header := file.Read(5);
    if pos.Some? {
      file.Seek(pos.value);
    }
    if !(|header| >= 4 && header[..4] == PdfMagic) {
      return Rejected(InvalidSignature);
    }
    // MIME validation (best effort).
    if magicAvailable {
      var buffer := file.Read(2048);
      var mime := sniff(buffer);
      file.Seek(0);
      if mime != PdfMime {
        // The InvalidMime error raised here is caught by the handler, which
        // seeks to 0 again.
        file.Seek(0);
      }
    } else {
      // `import magic` failed: the handler seeks to 0.
      file.Seek(0);
    }
    return Accepted;
  }

  /** The extension check ignores case: a name passes exactly when it ends
      in a dot followed by p, d, f in either case. */
  lemma PdfExtensionIgnoresCase(name: string)
    ensures HasPdfExtension(name) <==>
              |name| >= 4 && name[|name| - 4] == '.'
              && name[|name| - 3] in "pP" && name[|name| - 2] in "dD" && name[|name| - 1] in "fF"
  {
    var low := Lower(name);
    var n := |name|;
    if n >= 4 {
      assert low[n - 4..] == [low[n - 4], low[n - 3], low[n - 2], low[n - 1]];
      LowersTo(name[n - 4], '.');
      LowersTo(name[n - 3], 'p');
      LowersTo(name[n - 2], 'd');
      LowersTo(name[n - 1], 'f');
    }
  }

  /** The characters that lower to a character outside 'A'..'Z' are that
      character and, for a lower-case letter, its upper-case form. */
  lemma LowersTo(c: char, lower: char)
    requires !('A' <= lower <= 'Z')
    ensures LowerChar(c) == lower <==>
              c == lower || ('a' <= lower <= 'z' && c as int == lower as int - 32)
  {
  }

  /** A file called "notpdf.pdf" holding the text "hello" gets past the
      extension and size checks and is refused for its signature. */
  lemma HelloIsRejected()
    ensures Validate("notpdf.pdf", 5, [0x68, 0x65, 0x6C, 0x6C, 0x6F]) == Rejected(InvalidSignature)
  {
    NotPdfHasExtension();
    SignatureIsPrefix([0x68, 0x65, 0x6C, 0x6C, 0x6F]);
    assert [0x68, 0x65, 0x6C, 0x6C, 0x6F][..4][0] != PdfMagic[0];
  }

  lemma NotPdfHasExtension()
    ensures HasPdfExtension("notpdf.pdf")
  {
    PdfExtensionIgnoresCase("notpdf.pdf");
    var name := "notpdf.pdf";
    assert name[6] == '.' && name[7] == 'p' && name[8] == 'd' && name[9] == 'f';
  }

  /** The size limit is inclusive, and an unknown (zero) size passes. */
  lemma SizeLimitIsInclusive(name: string, content: seq<byte>)
    requires HasPdfExtension(name) && HasPdfSignature(Header(content))
    ensures MaxUploadSize == 20971520
    ensures Validate(name, 0, content) == Accepted
    ensures Validate(name, MaxUploadSize, content) == Accepted
    ensures Validate(name, MaxUploadSize + 1, content) == Rejected(TooLarge)
  {
  }

  /** Only the first four bytes decide the signature check. */
  lemma SignatureIsPrefix(content: seq<byte>)
    ensures HasPdfSignature(Header(content)) <==> |content| >= 4 && content[..4] == PdfMagic
  {
    if |content| >= 4 {
      assert Header(content)[..4] == content[..4];
    }
  }

  /** `DocumentUploadSerializer.create`: the new document belongs to the
      requesting user, keeps the uploaded file's name as its original
      filename, is stored where `document_upload_to` says, carries the tags
      given, and is not yet processed. */
  function CreateDocument(id: DocumentId, user: UserId, filename: string,
                          folder: Option<FolderId>, tags: set<TagId>, now: Tick): (d: Document)
    ensures d.id == id && d.owner == user && d.originalFilename == filename
    ensures d.file == UploadTo(Some(user), filename)
    ensures d.folder == folder && d.tags == tags
    ensures !d.isProcessed && d.pageCount.None?
    ensures DocumentConsistent(d)
  {
    NewDocument(id, user, UploadTo(Some(user), filename), filename, folder, now).(tags := tags)
  }

  // ------------------------------------------------------ character fields

  /** What a DRF `CharField` complains about, in the order it reports them. */
  datatype FieldError = Blank | TooLong | NulCharacter

  /** `CharField.run_validation` with the options a `ModelSerializer` gives a
      model `CharField`: the value is stripped (`trim_whitespace`); a value
      that strips to nothing is refused unless the field allows blanks, and
      is then stored as ""; otherwise the `max_length` and NUL-character
      validators each add their complaint. */
  function CleanCharField(value: string, maxLength: nat, allowBlank: bool): (r: Result<string, seq<FieldError>>)
    ensures r.Ok? ==> r.value == Strip(value) && IsStripped(r.value)
    ensures r.Ok? ==> |r.value| <= maxLength && NoNul(r.value) && (r.value == "" ==> allowBlank)
    ensures r.Err? ==> r.error != []
    ensures r.Err? ==> (Blank in r.error <==> Strip(value) == "")
    ensures r.Err? ==> (TooLong in r.error <==> |Strip(value)| > maxLength)
    ensures r.Err? ==> (NulCharacter in r.error <==> !NoNul(Strip(value)))
  {
    var v := Strip(value);
    if v == "" then
      if allowBlank then Ok("") else Err([Blank])
    else
      var errors := (if |v| > maxLength then [TooLong] else [])
                    + (if NoNul(v) then [] else [NulCharacter]);
      if errors == [] then Ok(v) else Err(errors)
  }

  /** A character field accepts a value exactly when it is not all
      whitespace (or blanks are allowed), its stripped form fits, and it holds
      no NUL character anywhere. A refused blank is reported as `Blank`
      exactly when the value is all whitespace. */
  lemma CharFieldVerdict(value: string, maxLength: nat, allowBlank: bool)
    ensures CleanCharField(value, maxLength, allowBlank).Ok?
            <==> (allowBlank || !AllSpace(value)) && |Strip(value)| <= maxLength && NoNul(value)
    ensures CleanCharField(value, maxLength, allowBlank).Err?
            ==> (Blank in CleanCharField(value, maxLength, allowBlank).error <==> AllSpace(value))
  {
    StripEmptyIffBlank(value);
    StripNulIff(value);
  }

  /** Cleaning is idempotent: a value the field accepted is accepted again
      unchanged. */
  lemma CleanIsIdempotent(value: string, maxLength: nat, allowBlank: bool)
    requires CleanCharField(value, maxLength, allowBlank).Ok?
    ensures CleanCharField(CleanCharField(value, maxLength, allowBlank).value, maxLength, allowBlank)
            == CleanCharField(value, maxLength, allowBlank)
  {
    StripOfStripped(Strip(value));
  }
}
