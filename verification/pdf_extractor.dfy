/** documents/services/pdf_extractor.py: text normalisation and
    `extract_metadata_and_text`. The PDF libraries are not modelled: what
    they would report about a file (its metadata, the text of each page, its
    raw bytes) is the input `PdfSource`, and a file they cannot open at all
    is an `Err` carrying the text of the exception. The MD5 digest is the
    parameter `md5`, applied to the bytes the chunk loop fed it. */
module PdfExtractor {
  import opened Wrappers
  import opened PyStr
  import opened Streams
  import opened Query

  /** The size of each `f.read` in the hashing loop. */
  const ChunkSize: nat := 8192

  // ------------------------------------------------------ normalisation

  /** `text.replace("\x00", "")`. */
  function RemoveNul(s: string): (r: string)
    ensures NoNul(r)
    ensures |r| <= |s|
    ensures NoNul(s) ==> r == s
  {
    if s == [] then []
    else
      var rest := RemoveNul(s[1..]);
      if s[0] == '\0' then rest
      else
        assert forall k :: 1 <= k < |[s[0]] + rest| ==> ([s[0]] + rest)[k] == rest[k - 1];
        [s[0]] + rest
  }

  /** `replace` drops the NULs and nothing else: what is left is exactly the
      other characters, in their order. */
  lemma {:induction false} RemoveNulKeepsTheRest(s: string)
    ensures RemoveNul(s) == Select(s, NotNul)
  {
    if s != [] {
      RemoveNulKeepsTheRest(s[1..]);
    }
  }

  /** Removing NULs from two pieces of text one after the other is removing
      them from the whole. */
  lemma RemoveNulAppend(a: string, b: string)
    ensures RemoveNul(a + b) == RemoveNul(a) + RemoveNul(b)
  {
    RemoveNulKeepsTheRest(a + b);
    RemoveNulKeepsTheRest(a);
    RemoveNulKeepsTheRest(b);
    SelectAppend(a, b, NotNul);
  }

  /** `line.strip()` for each line, in order. */
  function StripEach(lines: seq<string>): (r: seq<string>)
    ensures |r| == |lines|
    ensures forall k :: 0 <= k < |r| ==> r[k] == Strip(lines[k])
  {
    seq(|lines|, k requires 0 <= k < |lines| => Strip(lines[k]))
  }

  /** `_normalize_text(text)`: NULs removed, the text cut into lines by
      `splitlines`, each line stripped at both ends, the lines joined again
      with "\n". The result has no NUL, and every "\n"-separated line of it
      is stripped. */
  function NormalizeText(text: string): (r: string)
    ensures text == "" ==> r == ""
    ensures NoNul(r)
    ensures forall k :: 0 <= k < |SplitOnNewline(r)| ==> IsStripped(SplitOnNewline(r)[k])
  {
    if text == "" then ""
    else
      var lines := SplitLines(RemoveNul(text));
      var stripped := StripEach(lines);
      NormalizedLines(text);
      JoinLines(stripped)
  }

  /** Stripped lines of a NUL-free text hold neither NUL nor "\n". */
  lemma StrippedLinesFacts(lines: seq<string>)
    requires forall k :: 0 <= k < |lines| ==> NoNul(lines[k]) && NoLineBreak(lines[k])
    ensures forall k :: 0 <= k < |StripEach(lines)| ==>
              NoNul(StripEach(lines)[k]) && '\n' !in StripEach(lines)[k]
  {
    var stripped := StripEach(lines);
    forall k | 0 <= k < |stripped|
      ensures NoNul(stripped[k]) && '\n' !in stripped[k]
    {
      StripKeepsNoNul(lines[k]);
      StripKeepsNoLineBreak(lines[k]);
      assert forall i :: 0 <= i < |stripped[k]| ==> stripped[k][i] != '\n';
    }
  }

  /** Line order is kept: the i-th "\n"-separated line of the normalised
      text is the stripped i-th line of the NUL-free input; and a text that
      is nothing but NULs normalises to "". */
  lemma NormalizedLines(text: string)
    ensures RemoveNul(text) != "" ==>
              SplitOnNewline(JoinLines(StripEach(SplitLines(RemoveNul(text)))))
              == StripEach(SplitLines(RemoveNul(text)))
    ensures NoNul(JoinLines(StripEach(SplitLines(RemoveNul(text)))))
    ensures RemoveNul(text) == "" ==> JoinLines(StripEach(SplitLines(RemoveNul(text)))) == ""
  {
    var lines := SplitLines(RemoveNul(text));
    var stripped := StripEach(lines);
    SplitLinesKeepsNoNul(RemoveNul(text));
    StrippedLinesFacts(lines);
    JoinKeepsNoNul(stripped);
    if RemoveNul(text) != "" {
      SplitJoinRoundTrip(stripped);
    }
  }

  /** `_normalize_text` is not idempotent: a blank last line survives one
      pass as a trailing "\n" and is dropped by the next. */
  lemma NormalizeIsNotIdempotent()
    ensures NormalizeText("a\n\n") == "a\n"
    ensures NormalizeText("a\n") == "a"
  {
    SplitLinesOfSamples();
    assert RemoveNul("a\n\n") == "a\n\n";
    assert RemoveNul("a\n") == "a\n";
    StripOfSamples();
    assert StripEach(["a", ""]) == ["a", ""];
    assert StripEach(["a"]) == ["a"];
  }

  lemma SplitLinesOfSamples()
    ensures SplitLines("a\n\n") == ["a", ""]
    ensures SplitLines("a\n") == ["a"]
  {
    assert LineEnd("\n") == 0;
    assert NextLineStart("\n", 0) == 1;
    assert "\n"[1..] == "";
    assert SplitLines("\n") == [""];
    assert LineEnd("\n\n") == 0;
    assert LineEnd("a\n\n") == 1;
    assert NextLineStart("a\n\n", 1) == 2;
    assert "a\n\n"[..1] == "a" && "a\n\n"[2..] == "\n";
    assert LineEnd("a\n") == 1;
    assert NextLineStart("a\n", 1) == 2;
    assert "a\n"[..1] == "a" && "a\n"[2..] == "";
  }

  lemma StripOfSamples()
    ensures Strip("a") == "a" && Strip("") == ""
  {
    assert !IsSpace("a"[0]);
    assert LStrip("a") == "a";
    assert RStrip("a") == "a";
    assert LStrip("") == "" && RStrip("") == "";
  }

  // ------------------------------------------------------------- pages

  /** `page.extract_text() or ""`; `None` stands both for a page that
      yields no text and for one whose extraction raised. */
  function PageText(page: Option<string>): string {
    if page.Some? then page.value else ""
  }

  /** The page texts the loop keeps: the non-empty ones, in page order. */
  function NonEmptyTexts(pages: seq<Option<string>>): (texts: seq<string>)
    ensures |texts| <= |pages|
    ensures forall k :: 0 <= k < |texts| ==> texts[k] != ""
  {
    if pages == [] then []
    else
      var last := PageText(pages[|pages| - 1]);
      NonEmptyTexts(pages[..|pages| - 1]) + (if last != "" then [last] else [])
  }

  /** The texts of two runs of pages are those of each run, in order. */
  lemma {:induction false} NonEmptyTextsAppend(a: seq<Option<string>>, b: seq<Option<string>>)
    ensures NonEmptyTexts(a + b) == NonEmptyTexts(a) + NonEmptyTexts(b)
    decreases |b|
  {
    if b == [] {
      assert a + b == a;
    } else {
      var b' := b[..|b| - 1];
      assert (a + b)[..|a + b| - 1] == a + b';
      assert (a + b)[|a + b| - 1] == b[|b| - 1];
      NonEmptyTextsAppend(a, b');
    }
  }

  /** A page whose extraction raised contributes nothing and does not stop
      the pages after it from being read. */
  lemma FailedPageContributesNothing(pages: seq<Option<string>>, i: nat)
    requires i < |pages| && pages[i].None?
    ensures NonEmptyTexts(pages) == NonEmptyTexts(pages[..i] + pages[i + 1..])
  {
    var before, failed, after := pages[..i], [pages[i]], pages[i + 1..];
    assert pages == before + failed + after;
    assert NonEmptyTexts(failed) == [] by {
      assert failed[..0] == [];
    }
    NonEmptyTextsAppend(before, failed);
    assert NonEmptyTexts(before + failed) == NonEmptyTexts(before);
    NonEmptyTextsAppend(before + failed, after);
    NonEmptyTextsAppend(before, after);
  }

  /** The page loop of `extract_metadata_and_text`. */
  method CollectPageTexts(pages: seq<Option<string>>) returns (texts: seq<string>)
    ensures texts == NonEmptyTexts(pages)
  {
    texts := [];
    for i := 0 to |pages|
      invariant texts == NonEmptyTexts(pages[..i])
    {
      var txt := PageText(pages[i]);
      if txt != "" {
        texts := texts + [txt];
      }
      assert pages[..i + 1][..i] == pages[..i];
    }
    assert pages[..|pages|] == pages;
  }

  // ----------------------------------------------------------- hashing

  /** The bytes of a list of chunks, in order. */
  function Flatten(chunks: seq<seq<byte>>): seq<byte> {
    if chunks == [] then [] else Flatten(chunks[..|chunks| - 1]) + chunks[|chunks| - 1]
  }

  /** The MD5 loop: `for chunk in iter(lambda: f.read(8192), b''):
      md5_hash.update(chunk)`. It stops at the first empty read; the chunks
      it hashes are non-empty, of at most 8192 bytes, all full but the last,
      and together are exactly the file's bytes. */
  method HashFile(path: string, content: seq<byte>, md5: seq<byte> -> string)
    returns (digest: string, chunks: seq<seq<byte>>)
    ensures Flatten(chunks) == content
    ensures forall k :: 0 <= k < |chunks| ==> 0 < |chunks[k]| <= ChunkSize
    ensures forall k :: 0 <= k < |chunks| - 1 ==> |chunks[k]| == ChunkSize
    ensures digest == md5(content)
  {
    var f := new FileObject(path, |content|, content, true);
    var fed: seq<byte> := [];
    chunks := [];
    while true
      invariant f.content == content
      invariant f.pos <= |content| && fed == content[..f.pos]
      invariant Flatten(chunks) == fed
      invariant forall k :: 0 <= k < |chunks| ==> 0 < |chunks[k]| <= ChunkSize
      invariant forall k :: 0 <= k < |chunks| - 1 ==> |chunks[k]| == ChunkSize
      invariant chunks != [] && |chunks[|chunks| - 1]| < ChunkSize ==> f.pos == |content|
      decreases |content| - f.pos
    {
      var chunk := f.Read(ChunkSize);
      if chunk == [] {
        break;
      }
      fed := fed + chunk;
      var before := chunks;
      chunks := chunks + [chunk];
      assert chunks[..|chunks| - 1] == before;
    }
    assert fed == content;
    digest := md5(fed);
  }

  // -------------------------------------------------------- extraction

  /** What PyPDF2 reports of the document information dictionary: the
      `title`/`author` attributes and the raw `/Title`/`/Author` entries. */
  datatype Metadata = Metadata(titleAttr: Option<string>, titleEntry: Option<string>,
                               authorAttr: Option<string>, authorEntry: Option<string>)

  /** A file the PDF libraries could open: its metadata (absent when
      `reader.metadata` is None), its pages' texts and its bytes. */
  datatype PdfSource = PdfSource(metadata: Option<Metadata>, pages: seq<Option<string>>,
                                 bytes: seq<byte>)

  /** The dictionary `extract_metadata_and_text` returns. */
  datatype Extracted = Extracted(title: string, author: string, pageCount: nat,
                                 contentText: string, md5: string)

  /** `attr or entry or ""`. */
  function FirstNonEmpty(attr: Option<string>, entry: Option<string>): (r: string)
    ensures attr.Some? && attr.value != "" ==> r == attr.value
    ensures (attr.None? || attr.value == "") && entry.Some? ==> r == entry.value
    ensures (attr.None? || attr.value == "") && entry.None? ==> r == ""
  {
    if attr.Some? && attr.value != "" then attr.value
    else if entry.Some? && entry.value != "" then entry.value
    else ""
  }

  function TitleOf(meta: Option<Metadata>): (t: string)
    ensures meta.None? ==> t == ""
  {
    if meta.None? then "" else FirstNonEmpty(meta.value.titleAttr, meta.value.titleEntry)
  }

  function AuthorOf(meta: Option<Metadata>): (a: string)
    ensures meta.None? ==> a == ""
  {
    if meta.None? then "" else FirstNonEmpty(meta.value.authorAttr, meta.value.authorEntry)
  }

  /** The result of `extract_metadata_and_text` for a file the libraries
      open as `source` (or fail to open, with the exception's text). */
  function ExtractionOf(source: Result<PdfSource, string>, md5: seq<byte> -> string)
    : (r: Result<Extracted, string>)
  {
    match source
    case Err(e) => Err(e)
    case Ok(pdf) =>
      Ok(Extracted(TitleOf(pdf.metadata), AuthorOf(pdf.metadata), |pdf.pages|,
                   NormalizeText(JoinLines(NonEmptyTexts(pdf.pages))), md5(pdf.bytes)))
  }

  /** A file with no pages has page count 0 and empty content, and one
      without metadata has an empty title and author; neither is an error. */
  lemma EmptyFileExtraction(pdf: PdfSource, md5: seq<byte> -> string)
    ensures ExtractionOf(Ok(pdf), md5).Ok?
    ensures pdf.pages == [] ==> ExtractionOf(Ok(pdf), md5).value.pageCount == 0
                                && ExtractionOf(Ok(pdf), md5).value.contentText == ""
    ensures pdf.metadata.None? ==> ExtractionOf(Ok(pdf), md5).value.title == ""
                                   && ExtractionOf(Ok(pdf), md5).value.author == ""
  {
  }

  /** Two files with the same bytes get the same digest. */
  lemma SameBytesSameDigest(a: PdfSource, b: PdfSource, md5: seq<byte> -> string)
    requires a.bytes == b.bytes
    ensures ExtractionOf(Ok(a), md5).value.md5 == ExtractionOf(Ok(b), md5).value.md5
  {
  }

  /** `extract_metadata_and_text(path)`. */
  method ExtractMetadataAndText(path: string, source: Result<PdfSource, string>,
                                md5: seq<byte> -> string)
    returns (r: Result<Extracted, string>)
    ensures r == ExtractionOf(source, md5)
    ensures source.Err? ==> r == Err(source.error)
    ensures source.Ok? ==> r.Ok? && r.value.pageCount == |source.value.pages|
  {
    if source.Err? {
      return Err(source.error);
    }
    var pdf := source.value;
    var title := TitleOf(pdf.metadata);
    var author := AuthorOf(pdf.metadata);
    var pageCount := |pdf.pages|;
    var texts := CollectPageTexts(pdf.pages);
    var contentText := NormalizeText(JoinLines(texts));
    var digest, _ := HashFile(path, pdf.bytes, md5);
    return Ok(Extracted(title, author, pageCount, contentText, digest));
  }
}
