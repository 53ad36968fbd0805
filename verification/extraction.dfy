/**
 * `ResumeScreeningAgent.extract_text` and its two readers: the file type is
 * chosen from the lower-cased file-name suffix, `.pdf` before `.txt`, and
 * any other suffix is refused. The PDF parser and the UTF-8 decoder are
 * library code; they are parameters of the model (`Readers`).
 */
module Extraction {
  import opened Results
  import opened Text

  newtype byte = b: int | 0 <= b < 256

  /** An uploaded file: the name it was uploaded under and its bytes. */
  datatype Upload = Upload(name: string, content: seq<byte>)

  /**
   * The library calls the readers make: the text of every page of a PDF, or
   * the library's error message; and UTF-8 decoding, or the decoder's error.
   */
  datatype Readers = Readers(
    pdfPages: seq<byte> -> Result<seq<string>, string>,
    decodeUtf8: seq<byte> -> Result<string, string>)

  /** The exceptions `extract_text` raises, with their messages. */
  datatype ExtractError =
    | UnsupportedFileType(message: string)  // ValueError
    | ReadError(message: string)            // Exception from a reader

  const PdfSuffix: string := ".pdf"
  const TxtSuffix: string := ".txt"

  /** The pages' texts one after the other, as the page loop of `extract_text_from_pdf` builds them. */
  function Concat(pages: seq<string>): string
  {
    if pages == [] then [] else Concat(pages[..|pages| - 1]) + pages[|pages| - 1]
  }

  lemma {:induction false} ConcatAppend(a: seq<string>, b: seq<string>)
    ensures Concat(a + b) == Concat(a) + Concat(b)
    decreases |b|
  {
    if b == [] {
      assert a + b == a;
    } else {
      ConcatAppend(a, b[..|b| - 1]);
      assert (a + b)[..|a + b| - 1] == a + b[..|b| - 1];
    }
  }

  /**
   * Pages keep document order: the text of page `i` comes right after the
   * text of the pages before it and right before that of the pages after it.
   */
  lemma PageInPlace(pages: seq<string>, i: int)
    requires 0 <= i < |pages|
    ensures Concat(pages) == Concat(pages[..i]) + pages[i] + Concat(pages[i + 1..])
  {
    var upTo, after := pages[..i + 1], pages[i + 1..];
    assert Concat(pages) == Concat(upTo) + Concat(after) by {
      assert pages == upTo + after;
      ConcatAppend(upTo, after);
    }
    assert Concat(upTo) == Concat(pages[..i]) + pages[i] by {
      assert upTo[..i] == pages[..i] && upTo[i] == pages[i];
    }
  }

  /** `extract_text_from_pdf`: all pages' text, or the parser's error wrapped as "Error reading PDF: ...". */
  function ReadPdf(content: seq<byte>, readers: Readers): (r: Result<string, ExtractError>)
    ensures r.Success? <==> readers.pdfPages(content).Success?
    ensures r.Success? ==> r.value == Concat(readers.pdfPages(content).value)
    ensures r.Failure? ==> r.error == ReadError("Error reading PDF: " + readers.pdfPages(content).error)
  {
    match readers.pdfPages(content)
    case Success(pages) => Success(Concat(pages))
    case Failure(e) => Failure(ReadError("Error reading PDF: " + e))
  }

  /** `extract_text_from_txt`: the decoded text, or the decoder's error wrapped as "Error reading TXT: ...". */
  function ReadTxt(content: seq<byte>, readers: Readers): (r: Result<string, ExtractError>)
    ensures r.Success? <==> readers.decodeUtf8(content).Success?
    ensures r.Success? ==> r.value == readers.decodeUtf8(content).value
    ensures r.Failure? ==> r.error == ReadError("Error reading TXT: " + readers.decodeUtf8(content).error)
  {
    match readers.decodeUtf8(content)
    case Success(text) => Success(text)
    case Failure(e) => Failure(ReadError("Error reading TXT: " + e))
  }

  /**
   * `name` ends in `suffix` up to ASCII case, stated character by character
   * and without lower-casing the whole name.
   */
  predicate EndsWithIgnoringCase(name: string, suffix: string) {
    && |suffix| <= |name|
    && forall k :: 0 <= k < |suffix| ==>
         LowerChar(name[|name| - |suffix| + k]) == LowerChar(suffix[k])
  }

  /** `extract_text(file)`: dispatch on the lower-cased name's suffix. */
  function ExtractText(upload: Upload, readers: Readers): Result<string, ExtractError> {
    var filename := Lower(upload.name);
    if EndsWith(filename, PdfSuffix) then ReadPdf(upload.content, readers)
    else if EndsWith(filename, TxtSuffix) then ReadTxt(upload.content, readers)
    else Failure(UnsupportedFileType("Unsupported file type: " + filename))
  }

  /**
   * A name ending in ".pdf" in any case goes to the PDF reader, one ending in
   * ".txt" to the text reader, and only the remaining ones are refused as
   * unsupported, with the lower-cased name in the message.
   */
  lemma ExtractTextRoutes(upload: Upload, readers: Readers)
    ensures EndsWithIgnoringCase(upload.name, PdfSuffix) ==> ExtractText(upload, readers) == ReadPdf(upload.content, readers)
    ensures EndsWithIgnoringCase(upload.name, TxtSuffix) ==> ExtractText(upload, readers) == ReadTxt(upload.content, readers)
    ensures !EndsWithIgnoringCase(upload.name, PdfSuffix) && !EndsWithIgnoringCase(upload.name, TxtSuffix) ==>
      ExtractText(upload, readers) == Failure(UnsupportedFileType("Unsupported file type: " + Lower(upload.name)))
    ensures ExtractText(upload, readers).Failure? && ExtractText(upload, readers).error.UnsupportedFileType? <==>
      !EndsWithIgnoringCase(upload.name, PdfSuffix) && !EndsWithIgnoringCase(upload.name, TxtSuffix)
  {
    SuffixOfLower(upload.name, PdfSuffix);
    SuffixOfLower(upload.name, TxtSuffix);
  }

  /** For the lower-case suffixes used here, `lower(name).endswith(suffix)` is the case-blind suffix test. */
  lemma SuffixOfLower(name: string, suffix: string)
    requires suffix == PdfSuffix || suffix == TxtSuffix
    ensures EndsWith(Lower(name), suffix) <==> EndsWithIgnoringCase(name, suffix)
  {
    assert forall k :: 0 <= k < |suffix| ==> LowerChar(suffix[k]) == suffix[k];
    var lower := Lower(name);
    if |suffix| <= |name| {
      var tail := lower[|name| - |suffix|..];
      assert forall k :: 0 <= k < |suffix| ==> tail[k] == LowerChar(name[|name| - |suffix| + k]);
      if EndsWithIgnoringCase(name, suffix) {
        assert tail == suffix;
      }
    }
  }

  /** No name has both suffixes, so the order of the two tests does not matter. */
  lemma SuffixesExclusive(name: string)
    ensures !(EndsWithIgnoringCase(name, PdfSuffix) && EndsWithIgnoringCase(name, TxtSuffix))
  {
    if EndsWithIgnoringCase(name, PdfSuffix) {
      assert LowerChar(name[|name| - 4 + 1]) == LowerChar(PdfSuffix[1]) == 'p';
      assert LowerChar(TxtSuffix[1]) == 't';
    }
  }
}
