/** The receipt upload endpoint: the content-type gate, the OCR step taken
    as given, and the response built around the parsed record.  Decoding
    the image, preprocessing it and running the OCR engine are outside the
    model; their outcome enters as `recognised`, where `None` stands for
    any exception they raise. */
module Upload {
  import opened Wrappers
  import opened Text
  import opened Receipt

  const BAD_REQUEST: nat := 400
  const SERVER_ERROR: nat := 500

  /** `content_type.startswith("image/")` */
  predicate IsImageContentType(contentType: string) {
    "image/" <= contentType
  }

  datatype Response =
    | Extracted(filename: string, extractedText: string, structuredData: map<string, string>)
    | Failed(status: nat)

  /** The endpoint as written: the 400 raised for a non-image upload is
      raised inside the `try`, so the catch-all handler turns it into a
      500, like every other failure.  A missing content type makes the
      `startswith` call itself fail, which ends the same way. */
  function HandleUpload(filename: string, contentType: Option<string>, recognised: Option<string>): (r: Response)
    ensures r.Extracted? <==> contentType.Some? && IsImageContentType(contentType.value) && recognised.Some?
    ensures r.Failed? ==> r.status == SERVER_ERROR
    ensures r.Extracted? ==> r.filename == filename
                             && IsStripOf(r.extractedText, recognised.value)
                             && r.structuredData == ParseReceipt(recognised.value)
  {
    if contentType.None? || !IsImageContentType(contentType.value) then Failed(SERVER_ERROR)
    else if recognised.None? then Failed(SERVER_ERROR)
    else Extracted(filename, Strip(recognised.value), ParseReceipt(recognised.value))
  }

  /** The endpoint as evidently intended: the validation error reaches the
      client as a 400, and only failures after the gate are 500s. */
  function HandleUploadReraised(filename: string, contentType: Option<string>, recognised: Option<string>): (r: Response)
    ensures r.Extracted? <==> contentType.Some? && IsImageContentType(contentType.value) && recognised.Some?
    ensures r.Failed? && r.status == BAD_REQUEST <==> contentType.Some? && !IsImageContentType(contentType.value)
    ensures r.Failed? ==> r.status == BAD_REQUEST || r.status == SERVER_ERROR
  {
    match contentType
    case None => Failed(SERVER_ERROR)
    case Some(ct) =>
      if !IsImageContentType(ct) then Failed(BAD_REQUEST)
      else if recognised.None? then Failed(SERVER_ERROR)
      else Extracted(filename, Strip(recognised.value), ParseReceipt(recognised.value))
  }

  /** The gate is decided before the image is looked at: a non-image
      upload fails whatever the OCR would have produced. */
  lemma NonImageRejectedRegardlessOfContent(filename: string, ct: string, a: Option<string>, b: Option<string>)
    requires !IsImageContentType(ct)
    ensures HandleUpload(filename, Some(ct), a) == HandleUpload(filename, Some(ct), b) == Failed(SERVER_ERROR)
    ensures HandleUploadReraised(filename, Some(ct), a) == HandleUploadReraised(filename, Some(ct), b) == Failed(BAD_REQUEST)
  {
  }

  /** The two versions differ only on rejected content types. */
  lemma AgreeOnImages(filename: string, contentType: Option<string>, recognised: Option<string>)
    requires contentType.None? || IsImageContentType(contentType.value)
    ensures HandleUpload(filename, contentType, recognised) == HandleUploadReraised(filename, contentType, recognised)
  {
  }

  /** An accepted image whose text was recognised yields a response whose
      text is empty exactly when the recognised text is blank, and whose
      every structured value is a piece of the recognised text. */
  lemma ExtractedFieldsComeFromText(filename: string, ct: string, text: string)
    requires IsImageContentType(ct)
    ensures var r := HandleUpload(filename, Some(ct), Some(text));
            && r.Extracted?
            && (r.extractedText == [] <==> AllSpace(text))
            && (forall k :: k in r.structuredData ==> IsInfix(r.structuredData[k], text))
  {
    ValuesAreSubstrings(text);
  }

  /** A plain-text upload: the source answers 500 where a 400 was meant. */
  lemma TextUploadGetsServerError()
    ensures !IsImageContentType("text/plain")
    ensures HandleUpload("r.txt", Some("text/plain"), None) == Failed(SERVER_ERROR)
    ensures HandleUploadReraised("r.txt", Some("text/plain"), None) == Failed(BAD_REQUEST)
  {
    assert "text/plain"[0] != "image/"[0];
  }
}
